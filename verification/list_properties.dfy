/** What each list operation does to the abstract contents, and which invariant it keeps. */
module ListProperties {
  import opened Wrappers
  import opened Arena
  import opened DoublyLinkedList

  // ---------------------------------------------------------------------------
  // Add and the sequence constructor

  /**
   * `Add(e)` appends `e`, makes the new node the tail, bumps `Length` and
   * `version`, and keeps the prev links consistent when they were.
   */
  lemma AddAppends<T>(l: List<T>, e: T)
    requires ForwardValid(l)
    ensures var r := Add(l, e);
      && ForwardValid(r)
      && Spine(r) == Some(Spine(l).value + [|l.nodes|])
      && Contents(r) == Contents(l) + [e]
      && r.tail == Some(|l.nodes|)
      && r.length == l.length + 1
      && r.version == Bump(l.version)
      && (Valid(l) ==> Valid(r))
  {
    var ids := Spine(l).value;
    var r := Add(l, e);
    assert Appended(l.nodes, r.nodes, ids, e);
    AppendChain(l.nodes, r.nodes, ids, e);
    Establish(r, ids + [|l.nodes|]);
  }

  /** Folding `Add` over `xs` appends `xs`, keeping the forward invariant. */
  lemma {:induction false} AddAllAppends<T>(l: List<T>, xs: seq<T>)
    requires ForwardValid(l)
    ensures ForwardValid(AddAll(l, xs))
    ensures Contents(AddAll(l, xs)) == Contents(l) + xs
    ensures AddAll(l, xs).length == l.length + |xs|
    decreases |xs|
  {
    if |xs| > 0 {
      var l1 := Add(l, xs[0]);
      AddAppends(l, xs[0]);
      AddAllAppends(l1, xs[1..]);
      AppendStep(Contents(l), Contents(l1), Contents(AddAll(l1, xs[1..])), xs);
    }
  }

  /** Appending `xs[0]` and then the rest of `xs` appends `xs`. */
  lemma AppendStep<T>(a: seq<T>, b: seq<T>, c: seq<T>, xs: seq<T>)
    requires |xs| > 0 && b == a + [xs[0]] && c == b + xs[1..]
    ensures c == a + xs
  {
    assert a + xs == a + [xs[0]] + xs[1..];
  }

  /** Folding `Add` over `xs` keeps the prev links consistent. */
  lemma {:induction false} AddAllKeepsValid<T>(l: List<T>, xs: seq<T>)
    requires Valid(l)
    ensures Valid(AddAll(l, xs))
    decreases |xs|
  {
    if |xs| > 0 {
      AddAppends(l, xs[0]);
      AddAllKeepsValid(Add(l, xs[0]), xs[1..]);
    }
  }

  /**
   * The sequence constructor throws on a null sequence; otherwise it builds a
   * consistent list holding the items in order.
   */
  lemma FromSequenceBuilds<T>(sequence: Option<seq<T>>)
    ensures sequence.None? ==> FromSequence(sequence) == Failure(ArgumentNull)
    ensures sequence.Some? ==> var res := FromSequence(sequence);
      && res.Success?
      && Valid(res.value)
      && Contents(res.value) == sequence.value
      && res.value.length == |sequence.value|
  {
    if sequence.Some? {
      var l := Empty<T>();
      Establish(l, []);
      assert Contents(l) == [];
      AddAllAppends(l, sequence.value);
      AddAllKeepsValid(l, sequence.value);
    }
  }

  // ---------------------------------------------------------------------------
  // NodeAt and ElementAt

  /** Following `hops` next links from position `j` of a chain lands on position `j + hops`. */
  lemma {:induction false} FollowNext<T>(nodes: seq<Node<T>>, ids: seq<nat>, j: nat, hops: nat)
    requires Closed(nodes) && NextLinked(nodes, ids) && j + hops < |ids|
    ensures Follow(nodes, Some(ids[j]), true, hops) == Success(Some(ids[j + hops]))
    decreases hops
  {
    if hops > 0 {
      assert nodes[ids[j]].next == Some(ids[j + 1]);
      FollowNext(nodes, ids, j + 1, hops - 1);
    }
  }

  /** Following `hops` prev links from position `j` of a chain lands on position `j - hops`. */
  lemma {:induction false} FollowPrev<T>(nodes: seq<Node<T>>, ids: seq<nat>, j: nat, hops: nat)
    requires Closed(nodes) && PrevLinked(nodes, ids) && hops <= j < |ids|
    ensures Follow(nodes, Some(ids[j]), false, hops) == Success(Some(ids[j - hops]))
    decreases hops
  {
    if hops > 0 {
      assert nodes[ids[j]].prev == Before(ids, j) == Some(ids[j - 1]);
      FollowPrev(nodes, ids, j - 1, hops - 1);
      assert j - 1 - (hops - 1) == j - hops;
    }
  }

  /**
   * `NodeAt(index)` returns the node at position `index` of the chain. On a
   * consistent list this holds for every index; with only the forward links
   * intact it still holds for the first half, which it reaches from `head`.
   */
  lemma NodeAtFinds<T>(l: List<T>, index: int)
    requires ForwardValid(l) && 0 <= index < l.length
    requires Valid(l) || index <= l.length / 2
    ensures NodeAt(l, index) == Success(Some(Spine(l).value[index]))
  {
    var ids := Spine(l).value;
    var route := Route(l.length, index);
    if route.0 {
      FollowNext(l.nodes, ids, 0, index);
    } else {
      FollowPrev(l.nodes, ids, |ids| - 1, route.1);
    }
  }

  /**
   * `ElementAt(index)` returns the element at `index` and throws
   * out-of-range outside `0 <= index < Length`, for every `Length`.
   */
  lemma ElementAtReads<T>(l: List<T>, index: int)
    requires Valid(l)
    ensures ElementAt(l, index) ==
      if 0 <= index < l.length then Success(Contents(l)[index]) else Failure(IndexOutOfRange)
  {
    if 0 <= index < l.length {
      NodeAtFinds(l, index);
    }
  }

  // ---------------------------------------------------------------------------
  // AddAt

  /** `AddAt` outside `0 <= index <= Length` throws out-of-range and changes nothing. */
  lemma AddAtRejects<T>(l: List<T>, index: int, e: T)
    requires Anchored(l) && (index < 0 || index > l.length)
    ensures AddAt(l, index, e) == Threw(IndexOutOfRange, l)
  {
  }

  /** `AddAt(Length, e)` is exactly `Add(e)`: one append, one version bump. */
  lemma AddAtEnd<T>(l: List<T>, e: T)
    requires ForwardValid(l)
    ensures var res := AddAt(l, l.length, e);
      && res == Done(Add(l, e), ())
      && ForwardValid(res.state)
      && Contents(res.state) == Contents(l) + [e]
      && res.state.version == Bump(l.version)
  {
    AddAppends(l, e);
  }

  /**
   * The insertion before an existing node, for both the code as written
   * (`linkBack` false) and the repaired code: the forward chain gains the new
   * node at `index`, `head` moves to it when `index == 0`, `Length` and
   * `version` are bumped once, and the prev links stay consistent exactly when
   * the new node is the head or is linked back.
   */
  lemma InsertPlaces<T>(l: List<T>, index: int, e: T, linkBack: bool)
    requires Valid(l) && 0 <= index < l.length
    ensures var res := Insert(l, index, e, linkBack);
      && res.Done?
      && ForwardValid(res.state)
      && Spine(res.state) == Some(InsertedIds(Spine(l).value, index, |l.nodes|))
      && Contents(res.state) == Contents(l)[..index] + [e] + Contents(l)[index..]
      && res.state.head == (if index == 0 then Some(|l.nodes|) else l.head)
      && res.state.length == l.length + 1
      && res.state.version == Bump(l.version)
      && (Valid(res.state) <==> index == 0 || linkBack)
  {
    var ids := Spine(l).value;
    var id := |l.nodes|;
    var p := if linkBack then Before(ids, index) else None;
    var r := Insert(l, index, e, linkBack).state;
    InsertShape(l, index, e, linkBack);
    InsertNext(l.nodes, r.nodes, ids, index, e, p);
    InsertValues(l.nodes, r.nodes, ids, index, e, p);
    InsertPrev(l.nodes, r.nodes, ids, index, e, p);
    var ids' := InsertedIds(ids, index, id);
    assert r.head == First(ids');
    Establish(r, ids');
    assert Last(ids') == Last(ids);
  }

  /** The link surgery `Insert` performs on a consistent list, in the arena's terms. */
  lemma InsertShape<T>(l: List<T>, index: int, e: T, linkBack: bool)
    requires Valid(l) && 0 <= index < l.length
    ensures var ids := Spine(l).value;
      var res := Insert(l, index, e, linkBack);
      && res.Done?
      && Inserted(l.nodes, res.state.nodes, ids, index, e, if linkBack then Before(ids, index) else None)
      && res.state.head == (if index == 0 then Some(|l.nodes|) else l.head)
      && res.state.tail == l.tail
      && res.state.length == l.length + 1
      && res.state.version == Bump(l.version)
  {
    var ids := Spine(l).value;
    var n := ids[index];
    NodeAtFinds(l, index);
    assert l.nodes[n].prev == Before(ids, index);
    if index == 0 {
      assert Some(n) == l.head;
    } else {
      assert ids[0] != n;
      assert Some(n) != l.head;
      assert ids[index - 1] != n;
    }
  }

  /**
   * `AddAt` as written, with `0 <= index < Length`: the forward contents
   * become `s[..index] + [e] + s[index..]`, `head` moves to the new node when
   * `index == 0`, and `Length` and `version` are bumped once; but the prev
   * links stay consistent only when `index == 0`.
   */
  lemma AddAtInserts<T>(l: List<T>, index: int, e: T)
    requires Valid(l) && 0 <= index < l.length
    ensures var res := AddAt(l, index, e);
      && res.Done?
      && ForwardValid(res.state)
      && Contents(res.state) == Contents(l)[..index] + [e] + Contents(l)[index..]
      && res.state.head == (if index == 0 then Some(|l.nodes|) else l.head)
      && res.state.length == l.length + 1
      && res.state.version == Bump(l.version)
      && (Valid(res.state) <==> index == 0)
  {
    InsertPlaces(l, index, e, false);
  }

  // ---------------------------------------------------------------------------
  // RemoveAt

  /** The link surgery `RemoveAt` performs on a consistent list, in the arena's terms. */
  lemma RemoveAtShape<T>(l: List<T>, index: int)
    requires Valid(l) && 0 <= index < l.length
    ensures var ids := Spine(l).value;
      var res := RemoveAt(l, index);
      && res.Done?
      && res.value == l.nodes[ids[index]].value
      && Deleted(l.nodes, res.state.nodes, ids, index)
      && res.state.nodes[ids[index]].prev == None
      && res.state.nodes[ids[index]].next == None
      && res.state.head == First(RemovedIds(ids, index))
      && res.state.tail == Last(RemovedIds(ids, index))
      && res.state.length == l.length - 1
      && res.state.version == Bump(l.version)
  {
    var ids := Spine(l).value;
    var n := ids[index];
    NodeAtFinds(l, index);
    DetachDeletes(l.nodes, ids, index);
    assert l.nodes[n].prev == Before(ids, index);
    assert l.nodes[n].next == After(ids, index);
    assert index > 0 ==> ids[0] != n;
    assert index < |ids| - 1 ==> ids[|ids| - 1] != n;
  }

  /**
   * `RemoveAt(index)` on a consistent list: inside `0 <= index < Length` it
   * returns the element at `index`, leaves the others in order with the
   * invariants intact, clears the removed node's links, decrements `Length`
   * and bumps `version` (an emptied list has null `head` and `tail`);
   * outside it throws out-of-range and changes nothing.
   */
  lemma RemoveAtDeletes<T>(l: List<T>, index: int)
    requires Valid(l)
    ensures var res := RemoveAt(l, index); var s := Contents(l);
      if 0 <= index < l.length then
        && res.Done?
        && res.value == s[index]
        && Valid(res.state)
        && Contents(res.state) == s[..index] + s[index + 1..]
        && res.state.length == l.length - 1
        && res.state.version == Bump(l.version)
        && res.state.nodes[Spine(l).value[index]].prev == None
        && res.state.nodes[Spine(l).value[index]].next == None
        && (res.state.length == 0 ==> res.state.head == None && res.state.tail == None)
      else
        res == Threw(IndexOutOfRange, l)
  {
    if 0 <= index < l.length {
      var ids := Spine(l).value;
      var r := RemoveAt(l, index).state;
      RemoveAtShape(l, index);
      DeleteNext(l.nodes, r.nodes, ids, index);
      DeletePrev(l.nodes, r.nodes, ids, index);
      DeleteValues(l.nodes, r.nodes, ids, index);
      Establish(r, RemovedIds(ids, index));
    }
  }

  // ---------------------------------------------------------------------------
  // Remove

  /**
   * The scan of `Remove` walks the chain from position `j` and stops at
   * position `k`: at the first match, or at the null after the last node.
   */
  lemma {:induction false} ScanStops<V>(l: List<Option<V>>, item: Option<V>, j: nat, k: nat, fuel: nat, repaired: bool)
    requires ForwardValid(l) && j <= k <= l.length && fuel >= l.length - j
    requires forall i | j <= i < k :: !IsEquals(Contents(l)[i], item)
    requires k < l.length ==> IsEquals(Contents(l)[k], item)
    ensures var ids := Spine(l).value;
      Scan(l, item, At(ids, j), fuel, repaired) ==
        if k < l.length then Unlink(l, ids[k], repaired) else Done(l, ())
    decreases k - j
  {
    var ids := Spine(l).value;
    if j < k {
      assert l.nodes[ids[j]].next == At(ids, j + 1);
      assert l.nodes[ids[j]].value == Contents(l)[j];
      ScanStops(l, item, j + 1, k, fuel - 1, repaired);
    } else if k < l.length {
      assert l.nodes[ids[k]].value == Contents(l)[k];
    }
  }

  /**
   * Unlinking the node at position `k` of a consistent list of at least two
   * nodes is a deletion that moves `head` or `tail` when `k` is an end.
   */
  lemma UnlinkShape<T>(l: List<T>, k: nat, repaired: bool)
    requires Valid(l) && k < l.length && l.length > 1
    ensures var ids := Spine(l).value;
      var res := Unlink(l, ids[k], repaired);
      && res.Done?
      && Deleted(l.nodes, res.state.nodes, ids, k)
      && res.state.head == First(RemovedIds(ids, k))
      && res.state.tail == Last(RemovedIds(ids, k))
      && res.state.length == l.length - 1
      && res.state.version == Bump(l.version)
  {
    var ids := Spine(l).value;
    var n := ids[k];
    assert l.nodes[n].prev == Before(ids, k);
    assert l.nodes[n].next == After(ids, k);
    if k == 0 {
      UnlinkFirst(l, repaired);
    } else if k == |ids| - 1 {
      assert ids[0] != n && ids[k - 1] != n;
      UnlinkLast(l, repaired);
    } else {
      UnlinkInterior(l, ids, k, repaired);
    }
  }

  /** `UnlinkShape` for the head of a list of at least two nodes. */
  lemma UnlinkFirst<T>(l: List<T>, repaired: bool)
    requires Valid(l) && l.length > 1
    ensures var ids := Spine(l).value;
      var res := Unlink(l, ids[0], repaired);
      && res.Done?
      && Deleted(l.nodes, res.state.nodes, ids, 0)
      && res.state.head == First(RemovedIds(ids, 0))
      && res.state.tail == Last(RemovedIds(ids, 0))
      && res.state.length == l.length - 1
      && res.state.version == Bump(l.version)
  {
    var ids := Spine(l).value;
    assert l.nodes[ids[0]].next == After(ids, 0);
    assert ids[1] != ids[0];
  }

  /** `UnlinkShape` for the tail of a list of at least two nodes. */
  lemma UnlinkLast<T>(l: List<T>, repaired: bool)
    requires Valid(l) && l.length > 1
    ensures var ids := Spine(l).value; var k := |ids| - 1;
      var res := Unlink(l, ids[k], repaired);
      && res.Done?
      && Deleted(l.nodes, res.state.nodes, ids, k)
      && res.state.head == First(RemovedIds(ids, k))
      && res.state.tail == Last(RemovedIds(ids, k))
      && res.state.length == l.length - 1
      && res.state.version == Bump(l.version)
  {
    var ids := Spine(l).value;
    var k := |ids| - 1;
    assert l.nodes[ids[k]].prev == Before(ids, k);
    assert ids[0] != ids[k] && ids[k - 1] != ids[k];
  }

  /** `UnlinkShape` for a node strictly between the head and the tail. */
  lemma UnlinkInterior<T>(l: List<T>, ids: seq<nat>, k: nat, repaired: bool)
    requires Anchored(l) && Distinct(ids) && NextLinked(l.nodes, ids) && PrevLinked(l.nodes, ids)
    requires 0 < k < |ids| - 1 && l.head == First(ids) && l.tail == Last(ids)
    ensures var res := Unlink(l, ids[k], repaired);
      && res.Done?
      && Deleted(l.nodes, res.state.nodes, ids, k)
      && res.state.head == First(RemovedIds(ids, k))
      && res.state.tail == Last(RemovedIds(ids, k))
      && res.state.length == l.length - 1
      && res.state.version == Bump(l.version)
  {
    UnlinkBypass(l, ids, k, repaired);
    BypassDeletes(l.nodes, ids, k);
  }

  /** On an interior node, `Unlink` bypasses it: predecessor's `next` first, then successor's `prev`. */
  lemma UnlinkBypass<T>(l: List<T>, ids: seq<nat>, k: nat, repaired: bool)
    requires Anchored(l) && Distinct(ids) && NextLinked(l.nodes, ids) && PrevLinked(l.nodes, ids)
    requires 0 < k < |ids| - 1 && l.head == First(ids) && l.tail == Last(ids)
    ensures Unlink(l, ids[k], repaired)
      == Done(l.(nodes := SetPrev(SetNext(l.nodes, ids[k - 1], After(ids, k)), ids[k + 1], Before(ids, k)),
                 length := l.length - 1, version := Bump(l.version)), ())
  {
    var n := ids[k];
    assert l.nodes[n].prev == Before(ids, k);
    assert l.nodes[n].next == After(ids, k);
    assert ids[0] != n && ids[|ids| - 1] != n && ids[k - 1] != n;
  }

  /**
   * The effect of the removal scan with the first match at `k` (`k == Length`
   * when nothing matches), for the code as written (`repaired` false) and
   * the repaired code.
   */
  lemma ScanRemoves<V>(l: List<Option<V>>, item: Option<V>, k: nat, repaired: bool)
    requires Valid(l) && k <= l.length
    requires forall i | 0 <= i < k :: !IsEquals(Contents(l)[i], item)
    requires k < l.length ==> IsEquals(Contents(l)[k], item)
    ensures var res := Scan(l, item, l.head, |l.nodes|, repaired); var s := Contents(l);
      && (k == l.length ==> res == Done(l, ()))
      && (k < l.length && (l.length > 1 || repaired) ==>
            && res.Done?
            && Valid(res.state)
            && Contents(res.state) == s[..k] + s[k + 1..]
            && res.state.length == l.length - 1
            && res.state.version == Bump(l.version))
      && (k < l.length && l.length == 1 && !repaired ==> res == Threw(NullReference, l.(head := None)))
  {
    var ids := Spine(l).value;
    DistinctBound(ids, |l.nodes|);
    assert At(ids, 0) == l.head;
    ScanStops(l, item, 0, k, |l.nodes|, repaired);
    if k < l.length {
      if l.length > 1 {
        var r := Unlink(l, ids[k], repaired).state;
        UnlinkShape(l, k, repaired);
        DeleteNext(l.nodes, r.nodes, ids, k);
        DeletePrev(l.nodes, r.nodes, ids, k);
        DeleteValues(l.nodes, r.nodes, ids, k);
        Establish(r, RemovedIds(ids, k));
      } else if repaired {
        var r := Unlink(l, ids[k], repaired).state;
        assert l.nodes[ids[0]].next == None;
        Establish(r, []);
      } else {
        assert l.nodes[ids[0]].next == None;
      }
    }
  }

  /**
   * `Remove(item)` as written, on a consistent list with at least two
   * elements, with `k` the position of the first element equal to `item`
   * under `IsEquals` (`Length` when there is none): without a match nothing
   * changes, not even `version`; otherwise exactly that element is removed
   * and `Length` and `version` change once.
   */
  lemma RemoveFirstMatch<V>(l: List<Option<V>>, item: Option<V>, k: nat)
    requires Valid(l) && l.length > 1 && k <= l.length
    requires forall i | 0 <= i < k :: !IsEquals(Contents(l)[i], item)
    requires k < l.length ==> IsEquals(Contents(l)[k], item)
    ensures var res := Remove(l, item); var s := Contents(l);
      if k == l.length then res == Done(l, ())
      else
        && res.Done?
        && Valid(res.state)
        && Contents(res.state) == s[..k] + s[k + 1..]
        && res.state.length == l.length - 1
        && res.state.version == Bump(l.version)
  {
    ScanRemoves(l, item, k, false);
  }

  // ---------------------------------------------------------------------------
  // The version counter, on any list, consistent or not

  /**
   * Every structural change bumps `version` exactly once, and a call that
   * throws leaves `version` as it was.
   */
  lemma ChangesBumpVersion<T>(l: List<T>, index: int, e: T)
    requires Anchored(l)
    ensures Add(l, e).version == Bump(l.version)
    ensures var res := AddAt(l, index, e);
      res.state.version == if res.Done? then Bump(l.version) else l.version
    ensures var res := RemoveAt(l, index);
      res.state.version == if res.Done? then Bump(l.version) else l.version
  {
  }

  /** The removal scan either changes nothing or removes a node and bumps `version` once. */
  lemma {:induction false} ScanVersion<V>(l: List<Option<V>>, item: Option<V>, node: Ref, fuel: nat, repaired: bool)
    requires Anchored(l) && Points(l.nodes, node)
    ensures var res := Scan(l, item, node, fuel, repaired);
      && (res.Threw? ==> res.state.version == l.version)
      && (res.Done? ==> res.state == l || (res.state.version == Bump(l.version) && res.state.length == l.length - 1))
    decreases fuel
  {
    if node.Some? && fuel > 0 && !IsEquals(l.nodes[node.value].value, item) {
      ScanVersion(l, item, l.nodes[node.value].next, fuel - 1, repaired);
    }
  }

  /**
   * `Remove(item)` either leaves the list exactly as it was or removes one
   * node, decrementing `Length` and bumping `version` once; when it throws,
   * `version` is unchanged.
   */
  lemma RemoveVersion<V>(l: List<Option<V>>, item: Option<V>)
    requires Anchored(l)
    ensures var res := Remove(l, item);
      && (res.Threw? ==> res.state.version == l.version)
      && (res.Done? ==> res.state == l || (res.state.version == Bump(l.version) && res.state.length == l.length - 1))
  {
    ScanVersion(l, item, l.head, |l.nodes|, false);
  }
}
