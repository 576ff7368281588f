/**
 * `HybridFlowProcessor<T>`: a queue and a stack over one doubly linked list.
 * `Enqueue` and `Push` append at the tail, `Dequeue` removes at the head and
 * `Pop` removes at the tail.
 */
module HybridFlowProcessor {
  import opened DoublyLinkedList
  import opened ListProperties

  /** The processor object: its one private list. */
  datatype Processor<T> = Processor(list: List<T>)

  /** The constructor: an empty list. */
  function New<T>(): (p: Processor<T>)
    ensures Valid(p.list) && Contents(p.list) == []
  {
    Processor(Empty())
  }

  /** `Enqueue(item)`: `Add(item)`. */
  function Enqueue<T>(p: Processor<T>, item: T): (p': Processor<T>)
    requires Anchored(p.list)
    ensures Anchored(p'.list)
    ensures p'.list.length == p.list.length + 1
  {
    Processor(Add(p.list, item))
  }

  /** `Push(item)`: `Add(item)`. */
  function Push<T>(p: Processor<T>, item: T): (p': Processor<T>)
    requires Anchored(p.list)
    ensures Anchored(p'.list)
    ensures p'.list.length == p.list.length + 1
  {
    Processor(Add(p.list, item))
  }

  /** Lifts a list call's outcome to the processor. */
  function Wrap<T, R>(res: Outcome<List<T>, R>): Outcome<Processor<T>, R> {
    match res
    case Done(l, v) => Done(Processor(l), v)
    case Threw(f, l) => Threw(f, Processor(l))
  }

  /** `Dequeue()`: throws on an empty list, otherwise `RemoveAt(0)`. */
  function Dequeue<T>(p: Processor<T>): (res: Outcome<Processor<T>, T>)
    requires Anchored(p.list)
    ensures Anchored(res.state.list)
    ensures res.Threw? ==> res.state == p
    ensures res.Threw? && res.fault == InvalidOperation <==> p.list.length == 0
    ensures res.Done? ==> res.state.list.length == p.list.length - 1
  {
    if p.list.length == 0 then Threw(InvalidOperation, p)
    else Wrap(RemoveAt(p.list, 0))
  }

  /** `Pop()`: throws on an empty list, otherwise `RemoveAt(Length - 1)`. */
  function Pop<T>(p: Processor<T>): (res: Outcome<Processor<T>, T>)
    requires Anchored(p.list)
    ensures Anchored(res.state.list)
    ensures res.Threw? ==> res.state == p
    ensures res.Threw? && res.fault == InvalidOperation <==> p.list.length == 0
    ensures res.Done? ==> res.state.list.length == p.list.length - 1
  {
    if p.list.length == 0 then Threw(InvalidOperation, p)
    else Wrap(RemoveAt(p.list, p.list.length - 1))
  }

  // ---------------------------------------------------------------------------
  // Properties, on the list invariant that `Add` and `RemoveAt` keep

  /** `Enqueue(x)` and `Push(x)` turn contents `s` into `s + [x]` and keep the invariant. */
  lemma EnqueueAppends<T>(p: Processor<T>, x: T)
    requires Valid(p.list)
    ensures Valid(Enqueue(p, x).list) && Contents(Enqueue(p, x).list) == Contents(p.list) + [x]
    ensures Push(p, x) == Enqueue(p, x)
  {
    AddAppends(p.list, x);
  }

  /**
   * `Dequeue()` throws invalid-operation and changes nothing on an empty
   * processor; otherwise it returns the first element and leaves the rest.
   */
  lemma DequeueTakesFirst<T>(p: Processor<T>)
    requires Valid(p.list)
    ensures var res := Dequeue(p); var s := Contents(p.list);
      if |s| == 0 then res == Threw(InvalidOperation, p)
      else res.Done? && res.value == s[0] && Valid(res.state.list) && Contents(res.state.list) == s[1..]
  {
    if p.list.length > 0 {
      RemoveAtDeletes(p.list, 0);
    }
  }

  /**
   * `Pop()` throws invalid-operation and changes nothing on an empty
   * processor; otherwise it returns the last element and leaves the others.
   */
  lemma PopTakesLast<T>(p: Processor<T>)
    requires Valid(p.list)
    ensures var res := Pop(p); var s := Contents(p.list);
      if |s| == 0 then res == Threw(InvalidOperation, p)
      else res.Done? && res.value == s[|s| - 1] && Valid(res.state.list) && Contents(res.state.list) == s[..|s| - 1]
  {
    if p.list.length > 0 {
      RemoveAtDeletes(p.list, p.list.length - 1);
      var s := Contents(p.list);
      assert s[..|s| - 1] + s[|s|..] == s[..|s| - 1];
    }
  }

  /** `Push(x)` followed by `Pop()` returns `x` and restores the contents. */
  lemma PushPop<T>(p: Processor<T>, x: T)
    requires Valid(p.list)
    ensures var res := Pop(Push(p, x));
      && res.Done? && res.value == x
      && Valid(res.state.list) && Contents(res.state.list) == Contents(p.list)
  {
    EnqueueAppends(p, x);
    PopTakesLast(Push(p, x));
    var s := Contents(p.list);
    assert (s + [x])[..|s + [x]| - 1] == s;
  }

  /** Enqueues every item of `xs`, in order. */
  function EnqueueAll<T>(p: Processor<T>, xs: seq<T>): (p': Processor<T>)
    requires Anchored(p.list)
    ensures Anchored(p'.list)
    decreases |xs|
  {
    if |xs| == 0 then p else EnqueueAll(Enqueue(p, xs[0]), xs[1..])
  }

  /** Dequeues `n` times, collecting the items returned, or the first fault. */
  function DequeueMany<T>(p: Processor<T>, n: nat): (res: Outcome<Processor<T>, seq<T>>)
    requires Anchored(p.list)
    ensures Anchored(res.state.list)
    ensures res.Done? ==> |res.value| == n
    decreases n
  {
    if n == 0 then Done(p, [])
    else match Dequeue(p)
      case Threw(f, q) => Threw(f, q)
      case Done(q, x) =>
        match DequeueMany(q, n - 1)
        case Threw(f, q') => Threw(f, q')
        case Done(q', xs) => Done(q', [x] + xs)
  }

  /** Enqueueing `xs` appends it to the contents. */
  lemma {:induction false} EnqueueAllAppends<T>(p: Processor<T>, xs: seq<T>)
    requires Valid(p.list)
    ensures Valid(EnqueueAll(p, xs).list)
    ensures Contents(EnqueueAll(p, xs).list) == Contents(p.list) + xs
    decreases |xs|
  {
    if |xs| > 0 {
      var p1 := Enqueue(p, xs[0]);
      EnqueueAppends(p, xs[0]);
      EnqueueAllAppends(p1, xs[1..]);
      AppendStep(Contents(p.list), Contents(p1.list), Contents(EnqueueAll(p1, xs[1..]).list), xs);
    }
  }

  /** `n` dequeues return the first `n` elements, in order, and leave the rest. */
  lemma {:induction false} DequeueManyTakesPrefix<T>(p: Processor<T>, n: nat)
    requires Valid(p.list) && n <= |Contents(p.list)|
    ensures var res := DequeueMany(p, n); var s := Contents(p.list);
      && res.Done? && res.value == s[..n]
      && Valid(res.state.list) && Contents(res.state.list) == s[n..]
    decreases n
  {
    if n > 0 {
      var s := Contents(p.list);
      DequeueTakesFirst(p);
      var q := Dequeue(p).state;
      DequeueManyTakesPrefix(q, n - 1);
      PrefixStep(s, n);
    }
  }

  /** Taking the head and then `n - 1` more of the tail takes `n`. */
  lemma PrefixStep<T>(s: seq<T>, n: nat)
    requires 0 < n <= |s|
    ensures [s[0]] + s[1..][..n - 1] == s[..n]
    ensures s[1..][n - 1..] == s[n..]
  {
  }

  /**
   * FIFO: after enqueueing `xs`, dequeueing every element returns the
   * elements already held and then `xs`, in the order they went in, and
   * leaves the processor empty.
   */
  lemma FifoOrder<T>(p: Processor<T>, xs: seq<T>)
    requires Valid(p.list)
    ensures var t := Contents(p.list) + xs;
      var res := DequeueMany(EnqueueAll(p, xs), |t|);
      && res.Done? && res.value == t
      && Valid(res.state.list) && Contents(res.state.list) == []
  {
    var t := Contents(p.list) + xs;
    EnqueueAllAppends(p, xs);
    DequeueManyTakesPrefix(EnqueueAll(p, xs), |t|);
    assert t[..|t|] == t;
  }

  /** Starting from a new processor, the elements come out exactly as `xs` went in. */
  lemma Fifo<T>(xs: seq<T>)
    ensures var res := DequeueMany(EnqueueAll(New(), xs), |xs|);
      && res.Done? && res.value == xs
      && Valid(res.state.list) && Contents(res.state.list) == []
  {
    var p := New<T>();
    FifoOrder(p, xs);
    assert Contents(p.list) + xs == xs;
  }
}
