/**
 * The generic doubly linked list `DoublyLinkedList<T>`: `head`, `tail`,
 * `Length` and a `version` counter over an arena of nodes. Every operation is
 * a pure function from the list before the call to the list after it, total
 * on any list whose references name arena nodes, so that the effects of the
 * source's link surgery on a corrupted chain stay observable.
 */
module DoublyLinkedList {
  import opened Wrappers
  import opened Arena

  /** The exceptions the list, its enumerator and its adapter throw, plus a scan that never ends. */
  datatype Fault =
    | IndexOutOfRange   // IndexOutOfRangeException
    | InvalidOperation  // InvalidOperationException
    | NullReference     // NullReferenceException: a null link was dereferenced
    | ArgumentNull      // ArgumentNullException
    | Diverges          // the loop runs forever

  /**
   * What a call on a mutable object leaves behind: it returned `value`, or it
   * threw `fault`. Either way `state` is the object afterwards, because an
   * exception does not undo the assignments made before it.
   */
  datatype Outcome<S, R> = Done(state: S, value: R) | Threw(fault: Fault, state: S)

  /** The list object: its node arena and its four fields. `Length` is a C# `int`. */
  datatype List<T> = List(nodes: seq<Node<T>>, head: Ref, tail: Ref, length: int, version: int)

  const IntMax: int := 0x7fff_ffff
  const IntMin: int := -0x8000_0000

  /** The version increment on a C# `int` in an unchecked context: the largest value wraps to the smallest. */
  function Bump(v: int): (r: int)
    ensures r != v
    ensures IntMin <= v <= IntMax ==> IntMin <= r <= IntMax
    ensures v < IntMax ==> r == v + 1
    ensures v == IntMax ==> r == IntMin
  {
    if v == IntMax then IntMin else v + 1
  }

  /** Every reference the list holds, directly or through a node, names a node of its arena. */
  predicate Anchored<T>(l: List<T>) {
    Closed(l.nodes) && Points(l.nodes, l.head) && Points(l.nodes, l.tail)
  }

  /** The list built by the parameterless constructor. */
  function Empty<T>(): (l: List<T>)
    ensures Valid(l) && Contents(l) == [] && l.length == 0
  {
    var l := List([], None, None, 0, 0);
    Establish(l, []);
    l
  }

  // ---------------------------------------------------------------------------
  // Abstraction and invariants

  /** The nodes met walking `next` from `head` until null; `None` if the walk never ends. */
  function Spine<T>(l: List<T>): (ids: Option<seq<nat>>)
    requires Anchored(l)
    ensures ids.Some? ==> NextLinked(l.nodes, ids.value) && First(ids.value) == l.head
  {
    Walk(l.nodes, l.head, |l.nodes|)
  }

  /** The list's abstract contents: the values along the forward walk, head first. */
  function Contents<T>(l: List<T>): (s: seq<T>)
    requires Anchored(l) && Spine(l).Some?
    ensures |s| == |Spine(l).value|
  {
    Values(l.nodes, Spine(l).value)
  }

  /**
   * The forward invariant: the forward walk ends, has no repeated node,
   * has exactly `Length` nodes and ends at `tail`.
   */
  predicate ForwardValid<T>(l: List<T>) {
    && Anchored(l)
    && Spine(l).Some?
    && Distinct(Spine(l).value)
    && |Spine(l).value| == l.length
    && l.tail == Last(Spine(l).value)
  }

  /** The full invariant: in addition, every `prev` link mirrors the forward chain. */
  predicate Valid<T>(l: List<T>) {
    ForwardValid(l) && PrevLinked(l.nodes, Spine(l).value)
  }

  /** A chain of distinct next-linked nodes starting at `head` is the list's spine. */
  lemma Establish<T>(l: List<T>, ids: seq<nat>)
    requires Anchored(l) && Distinct(ids) && NextLinked(l.nodes, ids) && l.head == First(ids)
    ensures Spine(l) == Some(ids)
  {
    DistinctBound(ids, |l.nodes|);
    WalkFinds(l.nodes, ids, |l.nodes|);
  }

  // ---------------------------------------------------------------------------
  // Add and the sequence constructor

  /** `Add(e)`: appends a new node after `tail`. */
  function Add<T>(l: List<T>, e: T): (r: List<T>)
    requires Anchored(l)
    ensures Anchored(r) && |r.nodes| == |l.nodes| + 1
  {
    var id := |l.nodes|;
    if l.tail.None? then
      l.(nodes := Alloc(l.nodes, e, None, None), head := Some(id), tail := Some(id),
         length := l.length + 1, version := Bump(l.version))
    else
      l.(nodes := Alloc(SetNext(l.nodes, l.tail.value, Some(id)), e, l.tail, None), tail := Some(id),
         length := l.length + 1, version := Bump(l.version))
  }

  /** The sequence constructor's loop: adds the items of `xs` one by one, in order. */
  function AddAll<T>(l: List<T>, xs: seq<T>): (r: List<T>)
    requires Anchored(l)
    ensures Anchored(r) && |r.nodes| == |l.nodes| + |xs|
    decreases |xs|
  {
    if |xs| == 0 then l else AddAll(Add(l, xs[0]), xs[1..])
  }

  /** The constructor from a sequence; a null `sequence` is `None`. */
  function FromSequence<T>(sequence: Option<seq<T>>): (res: Result<List<T>, Fault>)
    ensures res.Success? <==> sequence.Some?
    ensures res.Failure? ==> res.error == ArgumentNull
    ensures res.Success? ==> Anchored(res.value) && |res.value.nodes| == |sequence.value|
  {
    match sequence
    case None => Failure(ArgumentNull)
    case Some(xs) => Success(AddAll(Empty(), xs))
  }

  // ---------------------------------------------------------------------------
  // NodeAt, ElementAt

  /**
   * Where `NodeAt(index)` starts and how many links it follows: forward from
   * `head` when `index <= Length / 2`, otherwise backward from `tail`.
   */
  function Route(length: int, index: int): (route: (bool, nat))
    requires 0 <= index < length
    ensures route.0 <==> index <= length / 2
    ensures route.1 <= length / 2
    ensures route.0 ==> route.1 == index
    ensures !route.0 ==> index == length - 1 - route.1
  {
    if index <= length / 2 then (true, index) else (false, length - index - 1)
  }

  /** Follows `hops` links from `r`, `next` links when `forward`, `prev` links otherwise. */
  function Follow<T>(nodes: seq<Node<T>>, r: Ref, forward: bool, hops: nat): (res: Result<Ref, Fault>)
    requires Closed(nodes) && Points(nodes, r)
    ensures res.Success? ==> Points(nodes, res.value)
    ensures res.Failure? ==> res.error == NullReference
    decreases hops
  {
    if hops == 0 then Success(r)
    else if r.None? then Failure(NullReference)
    else Follow(nodes, if forward then nodes[r.value].next else nodes[r.value].prev, forward, hops - 1)
  }

  /** The private `NodeAt(index)`; it may return null, or dereference null, on a broken chain. */
  function NodeAt<T>(l: List<T>, index: int): (res: Result<Ref, Fault>)
    requires Anchored(l) && 0 <= index < l.length
    ensures res.Success? ==> Points(l.nodes, res.value)
    ensures res.Failure? ==> res.error == NullReference
  {
    var route := Route(l.length, index);
    Follow(l.nodes, if route.0 then l.head else l.tail, route.0, route.1)
  }

  /** `ElementAt(index)`. It reads only: the list is not part of the result. */
  function ElementAt<T>(l: List<T>, index: int): (res: Result<T, Fault>)
    requires Anchored(l)
    ensures res.Failure? ==> res.error == IndexOutOfRange || res.error == NullReference
    ensures res.Failure? && res.error == IndexOutOfRange <==> index < 0 || index >= l.length
  {
    if index < 0 || index >= l.length then Failure(IndexOutOfRange)
    else match NodeAt(l, index)
      case Failure(f) => Failure(f)
      case Success(None) => Failure(NullReference)
      case Success(Some(n)) => Success(l.nodes[n].value)
  }

  // ---------------------------------------------------------------------------
  // AddAt

  /** `AddAt(index, e)` as written: the new node's `PreviousNode` is never set. */
  function AddAt<T>(l: List<T>, index: int, e: T): (res: Outcome<List<T>, ()>)
    requires Anchored(l)
    ensures Anchored(res.state) && |res.state.nodes| >= |l.nodes|
    ensures res.Threw? ==> res.fault == IndexOutOfRange || res.fault == NullReference
    ensures res.Threw? && res.fault == IndexOutOfRange <==> index < 0 || index > l.length
    ensures res.Done? ==> res.state.length == l.length + 1 && res.state.version == Bump(l.version)
  {
    Insert(l, index, e, false)
  }

  /**
   * The body of `AddAt`. With `linkBack` false it is the code as written;
   * with `linkBack` true the new node's prev link is also set to the
   * predecessor of the node it is inserted before, which the code omits.
   */
  function Insert<T>(l: List<T>, index: int, e: T, linkBack: bool): (res: Outcome<List<T>, ()>)
    requires Anchored(l)
    ensures Anchored(res.state) && |res.state.nodes| >= |l.nodes|
    ensures res.Threw? ==> res.fault == IndexOutOfRange || res.fault == NullReference
    ensures res.Threw? && res.fault == IndexOutOfRange <==> index < 0 || index > l.length
    ensures res.Done? ==> res.state.length == l.length + 1 && res.state.version == Bump(l.version)
  {
    if index < 0 || index > l.length then Threw(IndexOutOfRange, l)
    else if index == l.length then Done(Add(l, e), ())
    else match NodeAt(l, index)
      case Failure(f) => Threw(f, l)
      case Success(node) =>
        var id := |l.nodes|;
        var prev := if linkBack && node.Some? then l.nodes[node.value].prev else None;
        var nodes := Alloc(l.nodes, e, prev, node);
        if node == l.head then
          // the new node becomes the head, then the displaced node's prev link is redirected to it
          var l1 := l.(nodes := nodes, head := Some(id));
          if node.None? then Threw(NullReference, l1)
          else Done(l1.(nodes := SetPrev(nodes, node.value, Some(id)),
                        length := l.length + 1, version := Bump(l.version)), ())
        else if node.None? || nodes[node.value].prev.None? then
          // redirecting the predecessor's next link reaches through a null link
          Threw(NullReference, l)
        else
          var nodes1 := SetNext(nodes, nodes[node.value].prev.value, Some(id));
          Done(l.(nodes := SetPrev(nodes1, node.value, Some(id)),
                  length := l.length + 1, version := Bump(l.version)), ())
  }

  // ---------------------------------------------------------------------------
  // Remove

  /**
   * The private `IsEquals(a, b)`: a null `a` matches only a null `b`;
   * otherwise `a`'s own equality decides. Elements may be null (`None`)
   * and compare structurally otherwise.
   */
  predicate IsEquals<V(==)>(a: Option<V>, b: Option<V>)
    ensures IsEquals(a, b) <==> a == b
  {
    if a.None? then b.None? else a == b
  }

  /** `Remove(item)` as written: removing the only element dereferences null. */
  function Remove<V(==)>(l: List<Option<V>>, item: Option<V>): (res: Outcome<List<Option<V>>, ()>)
    requires Anchored(l)
    ensures Anchored(res.state) && |res.state.nodes| == |l.nodes|
    ensures res.Threw? ==> res.fault == NullReference || res.fault == Diverges
    ensures res.Done? ==> res.state == l || (res.state.length == l.length - 1 && res.state.version == Bump(l.version))
  {
    Scan(l, item, l.head, |l.nodes|, false)
  }

  /**
   * The scanning loop of `Remove`, which runs until its cursor is null: here
   * at `node`, with `fuel` more nodes to visit. Within `|nodes|` visits the
   * walk reaches null, meets a match, or has come back to a node it passed,
   * and then it loops forever.
   */
  function Scan<V(==)>(l: List<Option<V>>, item: Option<V>, node: Ref, fuel: nat, repaired: bool)
    : (res: Outcome<List<Option<V>>, ()>)
    requires Anchored(l) && Points(l.nodes, node)
    ensures Anchored(res.state) && |res.state.nodes| == |l.nodes|
    ensures res.Threw? ==> res.fault == NullReference || res.fault == Diverges
    ensures res.Done? ==> res.state == l || (res.state.length == l.length - 1 && res.state.version == Bump(l.version))
    decreases fuel
  {
    if node.None? then Done(l, ())
    else if fuel == 0 then Threw(Diverges, l)
    else if IsEquals(l.nodes[node.value].value, item) then Unlink(l, node.value, repaired)
    else Scan(l, item, l.nodes[node.value].next, fuel - 1, repaired)
  }

  /**
   * The branch of `Remove` that detaches the matched node `n`. With `repaired`
   * false it is the code as written, which sets `head` to null and then
   * dereferences it when `n` is the only node; with `repaired` true that case
   * empties the list instead.
   */
  function Unlink<T>(l: List<T>, n: nat, repaired: bool): (res: Outcome<List<T>, ()>)
    requires Anchored(l) && n < |l.nodes|
    ensures Anchored(res.state) && |res.state.nodes| == |l.nodes|
    ensures res.Threw? ==> res.fault == NullReference
    ensures res.Done? ==> res.state.length == l.length - 1 && res.state.version == Bump(l.version)
  {
    var node := l.nodes[n];
    if Some(n) == l.head then
      // the successor becomes the head and its prev link is cleared
      if node.next.None? then
        if repaired then Done(l.(head := None, tail := None, length := l.length - 1, version := Bump(l.version)), ())
        else Threw(NullReference, l.(head := None))
      else
        Done(l.(head := node.next, nodes := SetPrev(l.nodes, node.next.value, None),
                length := l.length - 1, version := Bump(l.version)), ())
    else if Some(n) == l.tail then
      // the predecessor becomes the tail and its next link is cleared
      if node.prev.None? then Threw(NullReference, l.(tail := None))
      else
        Done(l.(tail := node.prev, nodes := SetNext(l.nodes, node.prev.value, None),
                length := l.length - 1, version := Bump(l.version)), ())
    else if node.prev.None? then
      // the predecessor's next link must be redirected, but there is no predecessor
      Threw(NullReference, l)
    else
      var nodes1 := SetNext(l.nodes, node.prev.value, node.next);
      // the successor's prev link is redirected next; a missing successor throws
      if nodes1[n].next.None? then Threw(NullReference, l.(nodes := nodes1))
      else
        Done(l.(nodes := SetPrev(nodes1, nodes1[n].next.value, nodes1[n].prev),
                length := l.length - 1, version := Bump(l.version)), ())
  }

  // ---------------------------------------------------------------------------
  // RemoveAt

  /** `RemoveAt(index)`: detaches the node at `index`, clears its links and returns its value. */
  function RemoveAt<T>(l: List<T>, index: int): (res: Outcome<List<T>, T>)
    requires Anchored(l)
    ensures Anchored(res.state) && |res.state.nodes| == |l.nodes|
    ensures res.Threw? ==> res.state == l
    ensures res.Threw? ==> res.fault == IndexOutOfRange || res.fault == NullReference
    ensures res.Threw? && res.fault == IndexOutOfRange <==> index < 0 || index >= l.length
    ensures res.Done? ==> res.state.length == l.length - 1 && res.state.version == Bump(l.version)
  {
    if index < 0 || index >= l.length then Threw(IndexOutOfRange, l)
    else match NodeAt(l, index)
      case Failure(f) => Threw(f, l)
      case Success(None) => Threw(NullReference, l)
      case Success(Some(n)) =>
        var node := l.nodes[n];
        var head := if Some(n) == l.head then node.next else l.head;
        var tail := if Some(n) == l.tail then node.prev else l.tail;
        Done(List(Detach(l.nodes, n), head, tail, l.length - 1, Bump(l.version)), node.value)
  }
}
