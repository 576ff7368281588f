/**
 * Three defects of the list as written, each shown on the model of the code
 * as written, and the repaired operation with the property the code evidently
 * intends proved about it.
 *
 * 1. `AddAt` before an interior node never sets the new node's `PreviousNode`,
 *    so a backward walk stops at the new node: `ElementAt` for an earlier
 *    position reached from the tail dereferences null, and `RemoveAt` of the
 *    new node cuts off everything after it.
 * 2. `Remove` of the only element sets `head` to null and then dereferences
 *    it; `tail` keeps pointing at the removed node.
 * 3. `Reset` rewinds `index` but keeps `current`, so `Current` still reads
 *    the old element instead of throwing.
 */
module Findings {
  import opened Wrappers
  import opened Arena
  import opened DoublyLinkedList
  import opened ListProperties
  import opened ListEnumerator

  // ---------------------------------------------------------------------------
  // 1. AddAt leaves the new node's PreviousNode null

  /** Following `hops` prev links back from position `j` over a run of consistent prev links. */
  lemma {:induction false} FollowBackRun<T>(nodes: seq<Node<T>>, ids: seq<nat>, j: nat, hops: nat, extra: nat)
    requires Closed(nodes) && Within(nodes, ids) && hops <= j < |ids|
    requires forall k | j - hops < k <= j :: nodes[ids[k]].prev == Some(ids[k - 1])
    ensures Follow(nodes, Some(ids[j]), false, hops + extra) == Follow(nodes, Some(ids[j - hops]), false, extra)
    decreases hops
  {
    if hops > 0 {
      assert nodes[ids[j]].prev == Some(ids[j - 1]);
      FollowBackRun(nodes, ids, j - 1, hops - 1, extra);
    }
  }

  /** Following links from null: no hops stay at null, any further hop dereferences it. */
  lemma FollowFromNull<T>(nodes: seq<Node<T>>, forward: bool, hops: nat)
    requires Closed(nodes)
    ensures Follow(nodes, None, forward, hops) == if hops == 0 then Success(None) else Failure(NullReference)
  {
  }

  /**
   * On a list whose forward chain is sound but whose backward chain, read
   * from the tail, ends at position `i` with a null `prev`: reading a
   * position `j` from the head side, or from the tail side at or after `i`,
   * gives its element; reading a position before `i` from the tail side
   * dereferences null.
   */
  lemma BackwardRead<T>(r: List<T>, i: nat, j: nat)
    requires ForwardValid(r) && 0 < i < r.length && j < r.length
    requires r.nodes[Spine(r).value[i]].prev == None
    requires forall k | i < k < r.length :: r.nodes[Spine(r).value[k]].prev == Some(Spine(r).value[k - 1])
    ensures ElementAt(r, j) == if i > j > r.length / 2 then Failure(NullReference) else Success(Contents(r)[j])
  {
    var ids := Spine(r).value;
    if j <= r.length / 2 {
      NodeAtFinds(r, j);
    } else {
      TailRead(r, ids, i, j);
    }
  }

  /** `NodeAt(j)` from the tail side over a backward chain that ends at position `i`. */
  lemma TailRead<T>(r: List<T>, ids: seq<nat>, i: nat, j: nat)
    requires Anchored(r) && Within(r.nodes, ids) && |ids| == r.length && r.tail == Last(ids)
    requires 0 < i < |ids| && r.length / 2 < j < |ids|
    requires r.nodes[ids[i]].prev == None
    requires forall k | i < k < |ids| :: r.nodes[ids[k]].prev == Some(ids[k - 1])
    ensures NodeAt(r, j) ==
      if j >= i then Success(Some(ids[j])) else if j == i - 1 then Success(None) else Failure(NullReference)
  {
    var n := r.length;
    assert Route(n, j) == (false, n - 1 - j);
    if j >= i {
      FollowBackRun(r.nodes, ids, n - 1, n - 1 - j, 0);
    } else {
      FollowBackRun(r.nodes, ids, n - 1, n - 1 - i, i - j);
      FollowFromNull(r.nodes, false, i - j - 1);
    }
  }

  /**
   * As written: after `AddAt(index, e)` with `0 <= index < Length` the
   * forward contents are right, but `ElementAt(j)` throws a null dereference
   * exactly for the positions `j` before `index` that it reaches from the
   * tail (`j > (Length + 1) / 2`): the backward walk stops at the new node,
   * whose `PreviousNode` is null. Every other position reads its element.
   */
  lemma AddAtElementAt<T>(l: List<T>, index: int, e: T, j: int)
    requires Valid(l) && 0 <= index < l.length
    ensures var r := AddAt(l, index, e).state;
      && ForwardValid(r)
      && Contents(r) == Contents(l)[..index] + [e] + Contents(l)[index..]
      && ElementAt(r, j) ==
           if j < 0 || j > l.length then Failure(IndexOutOfRange)
           else if index > j > (l.length + 1) / 2 then Failure(NullReference)
           else Success(Contents(r)[j])
  {
    assert AddAt(l, index, e) == Insert(l, index, e, false);
    var ids := Spine(l).value;
    var r := AddAt(l, index, e).state;
    InsertPlaces(l, index, e, false);
    if index == 0 {
      ElementAtReads(r, j);
    } else if 0 <= j <= l.length {
      InsertShape(l, index, e, false);
      InsertKeepsLaterPrev(l.nodes, r.nodes, ids, index, e, None);
      BackwardRead(r, index, j);
    }
  }

  /**
   * `ElementAt(4)` throws on the list "abcdef" (as the sequence constructor
   * builds it) after `AddAt(5, 'x')`, whose contents are "abcdexf".
   */
  lemma AddAtElementAtExample(l: List<char>)
    requires Valid(l) && Contents(l) == "abcdef"
    ensures var r := AddAt(l, 5, 'x').state;
      && ForwardValid(r)
      && Contents(r) == "abcdexf"
      && ElementAt(r, 4) == Failure(NullReference)
  {
    AddAtElementAt(l, 5, 'x', 4);
    assert Contents(l)[..5] + ['x'] + Contents(l)[5..] == "abcdexf";
  }

  /**
   * On a list whose forward chain is sound, removing an interior node at
   * position `i` reached from the head side whose `prev` is null leaves the
   * node before it pointing at the detached node: the forward walk keeps
   * positions `0..i` and stops there.
   */
  lemma RemoveAtUnlinkedNode<T>(r: List<T>, i: nat)
    requires ForwardValid(r) && 0 < i && i + 1 < r.length && i <= r.length / 2
    requires r.nodes[Spine(r).value[i]].prev == None
    ensures var res := RemoveAt(r, i);
      && res.Done?
      && res.value == Contents(r)[i]
      && Anchored(res.state)
      && Spine(res.state) == Some(Spine(r).value[..i + 1])
      && Contents(res.state) == Contents(r)[..i + 1]
      && res.state.length == r.length - 1
  {
    var ids := Spine(r).value;
    NodeAtFinds(r, i);
    RemoveAtInterior(r, ids, i);
    DetachUnlinked(r.nodes, ids, i);
    Establish(RemoveAt(r, i).state, ids[..i + 1]);
  }

  /** `RemoveAt` of an interior node reached where it should be leaves `head` and `tail` alone and detaches it. */
  lemma RemoveAtInterior<T>(r: List<T>, ids: seq<nat>, i: nat)
    requires Anchored(r) && Distinct(ids) && Within(r.nodes, ids) && |ids| == r.length
    requires r.head == First(ids) && r.tail == Last(ids) && 0 < i < |ids| - 1
    requires NodeAt(r, i) == Success(Some(ids[i]))
    ensures RemoveAt(r, i)
      == Done(List(Detach(r.nodes, ids[i]), r.head, r.tail, r.length - 1, Bump(r.version)), r.nodes[ids[i]].value)
  {
    assert ids[0] != ids[i] && ids[|ids| - 1] != ids[i];
  }

  /**
   * As written: `RemoveAt(index)` right after `AddAt(index, e)`, with
   * `0 < index` and `index + 1 < Length` and the node reached from the head
   * side, returns `e` but leaves a list whose forward walk ends at the
   * detached node: only `index + 1` of the `Length` elements are reachable.
   */
  lemma AddAtRemoveAtLosesTail<T>(l: List<T>, index: int, e: T)
    requires Valid(l) && 0 < index && index + 1 < l.length && index <= (l.length + 1) / 2
    ensures var res := RemoveAt(AddAt(l, index, e).state, index);
      && res.Done?
      && res.value == e
      && Anchored(res.state)
      && Spine(res.state).Some?
      && Contents(res.state) == Contents(l)[..index] + [e]
      && res.state.length == l.length
      && |Contents(res.state)| < res.state.length
  {
    assert AddAt(l, index, e) == Insert(l, index, e, false);
    var ids := Spine(l).value;
    var r := AddAt(l, index, e).state;
    InsertPlaces(l, index, e, false);
    InsertShape(l, index, e, false);
    RemoveAtUnlinkedNode(r, index);
    var s := Contents(l);
    SpliceIndex(s, index, e);
    assert (s[..index] + [e] + s[index..])[..index + 1] == s[..index] + [e];
  }

  /**
   * As written, the defect is invisible to a `foreach`: the enumerator follows
   * only next links, so after `AddAt(index, e)` a fresh enumeration still
   * yields `s[..index] + [e] + s[index..]`, even where `ElementAt` throws.
   */
  lemma AddAtEnumerates<T>(l: List<T>, index: int, e: T)
    requires Valid(l) && 0 <= index < l.length
    ensures var r := AddAt(l, index, e).state;
      && ForwardValid(r)
      && Drain(GetEnumerator(r), r) == Success(Contents(l)[..index] + [e] + Contents(l)[index..])
  {
    AddAtInserts(l, index, e);
    EnumerationYieldsContents(AddAt(l, index, e).state);
  }

  /** `AddAt(index, e)` repaired: the new node's `PreviousNode` is the node it is inserted after. */
  function AddAtCorrected<T>(l: List<T>, index: int, e: T): (res: Outcome<List<T>, ()>)
    requires Anchored(l)
    ensures Anchored(res.state) && |res.state.nodes| >= |l.nodes|
    ensures res.Threw? ==> res.fault == IndexOutOfRange || res.fault == NullReference
    ensures res.Threw? && res.fault == IndexOutOfRange <==> index < 0 || index > l.length
    ensures res.Done? ==> res.state.length == l.length + 1 && res.state.version == Bump(l.version)
  {
    Insert(l, index, e, true)
  }

  /**
   * Repaired `AddAt` on a consistent list: inside `0 <= index <= Length` it
   * inserts `e` at `index` and keeps both link directions consistent;
   * outside it throws out-of-range and changes nothing.
   */
  lemma AddAtCorrectedInserts<T>(l: List<T>, index: int, e: T)
    requires Valid(l)
    ensures var res := AddAtCorrected(l, index, e); var s := Contents(l);
      if 0 <= index <= l.length then
        && res.Done?
        && Valid(res.state)
        && Contents(res.state) == s[..index] + [e] + s[index..]
        && res.state.length == l.length + 1
        && res.state.version == Bump(l.version)
      else
        res == Threw(IndexOutOfRange, l)
  {
    assert AddAtCorrected(l, index, e) == Insert(l, index, e, true);
    if 0 <= index < l.length {
      InsertPlaces(l, index, e, true);
    } else if index == l.length {
      AddAppends(l, e);
      var s := Contents(l);
      assert s[..index] + [e] + s[index..] == s + [e];
    }
  }

  /** `RemoveAt(index)` on a consistent list holding `e` at `index` between `s[..index]` and `s[index..]`. */
  lemma RemoveAtSplice<T>(r: List<T>, s: seq<T>, index: nat, e: T)
    requires Valid(r) && index <= |s| && Contents(r) == s[..index] + [e] + s[index..]
    ensures var res := RemoveAt(r, index);
      && res.Done?
      && res.value == e
      && Valid(res.state)
      && Contents(res.state) == s
      && res.state.length == |s|
  {
    RemoveAtDeletes(r, index);
    CutSplice(s, index, e);
  }

  /** Cutting position `index` out of `s` with `e` spliced in there gives back `e` and `s`. */
  lemma CutSplice<T>(s: seq<T>, index: nat, e: T)
    requires index <= |s|
    ensures var t := s[..index] + [e] + s[index..];
      index < |t| && t[index] == e && t[..index] + t[index + 1..] == s
  {
    var t := s[..index] + [e] + s[index..];
    assert t[..index] == s[..index];
    assert t[index + 1..] == s[index..];
  }

  /**
   * With the repair, `RemoveAt(index)` undoes `AddAt(index, e)`: it returns
   * `e` and restores the contents.
   */
  lemma AddAtCorrectedRoundTrip<T>(l: List<T>, index: int, e: T)
    requires Valid(l) && 0 <= index <= l.length
    ensures var res := RemoveAt(AddAtCorrected(l, index, e).state, index);
      && res.Done?
      && res.value == e
      && Valid(res.state)
      && Contents(res.state) == Contents(l)
      && res.state.length == l.length
  {
    AddAtCorrectedInserts(l, index, e);
    RemoveAtSplice(AddAtCorrected(l, index, e).state, Contents(l), index, e);
  }

  /** With the repair every position reads back from either end. */
  lemma AddAtCorrectedReads<T>(l: List<T>, index: int, e: T, j: int)
    requires Valid(l) && 0 <= index <= l.length
    ensures var r := AddAtCorrected(l, index, e).state; var s := Contents(l);
      ElementAt(r, j) == if 0 <= j <= l.length then Success((s[..index] + [e] + s[index..])[j]) else Failure(IndexOutOfRange)
  {
    AddAtCorrectedInserts(l, index, e);
    ElementAtReads(AddAtCorrected(l, index, e).state, j);
  }

  // ---------------------------------------------------------------------------
  // 2. Remove of the sole element

  /**
   * As written: `Remove` of the only element, when it matches, sets `head`
   * to null and then dereferences it. The list is left with a null `head`, a
   * `tail` still on the node and `Length` 1.
   */
  lemma RemoveSoleElementThrows<V>(l: List<Option<V>>, item: Option<V>)
    requires Valid(l) && l.length == 1 && Contents(l)[0] == item
    ensures var res := Remove(l, item);
      && res == Threw(NullReference, l.(head := None))
      && res.state.tail.Some?
      && res.state.length == 1
      && !ForwardValid(res.state)
  {
    ScanRemoves(l, item, 0, false);
    assert Spine(l.(head := None)) == Some([]);
  }

  /** `Remove(7)` on the list holding only 7 throws and leaves `head` null. */
  lemma RemoveSoleElementExample()
    ensures var l := FromSequence(Some([Some(7)]));
      && l.Success?
      && Remove(l.value, Some(7)) == Threw(NullReference, l.value.(head := None))
  {
    var xs: seq<Option<int>> := [Some(7)];
    FromSequenceBuilds(Some(xs));
    RemoveSoleElementThrows(FromSequence(Some(xs)).value, Some(7));
  }

  /** `Remove(item)` repaired: removing the only node empties the list. */
  function RemoveCorrected<V(==)>(l: List<Option<V>>, item: Option<V>): (res: Outcome<List<Option<V>>, ()>)
    requires Anchored(l)
    ensures Anchored(res.state) && |res.state.nodes| == |l.nodes|
    ensures res.Threw? ==> res.fault == NullReference || res.fault == Diverges
    ensures res.Done? ==> res.state == l || (res.state.length == l.length - 1 && res.state.version == Bump(l.version))
  {
    Scan(l, item, l.head, |l.nodes|, true)
  }

  /**
   * Repaired `Remove` on a consistent list, where `k` is the position of the
   * first element equal to `item` (`Length` when there is none): with no
   * match it changes nothing; otherwise it drops exactly that element, keeps
   * the invariants, decrements `Length` and bumps `version`, for any length.
   */
  lemma RemoveCorrectedRemovesFirst<V>(l: List<Option<V>>, item: Option<V>, k: nat)
    requires Valid(l) && k <= l.length
    requires forall i | 0 <= i < k :: Contents(l)[i] != item
    requires k < l.length ==> Contents(l)[k] == item
    ensures var res := RemoveCorrected(l, item); var s := Contents(l);
      && res.Done?
      && (k == l.length ==> res.state == l)
      && (k < l.length ==>
            && Valid(res.state)
            && Contents(res.state) == s[..k] + s[k + 1..]
            && res.state.length == l.length - 1
            && res.state.version == Bump(l.version))
  {
    ScanRemoves(l, item, k, true);
  }

  /** With the repair, removing the only element leaves the empty list: both ends null. */
  lemma RemoveCorrectedEmpties<V>(l: List<Option<V>>, item: Option<V>)
    requires Valid(l) && l.length == 1 && Contents(l)[0] == item
    ensures var res := RemoveCorrected(l, item);
      && res.Done?
      && Valid(res.state)
      && Contents(res.state) == []
      && res.state.head == None && res.state.tail == None
  {
    RemoveCorrectedRemovesFirst(l, item, 0);
    var r := RemoveCorrected(l, item).state;
    assert |Spine(r).value| == 0;
  }

  // ---------------------------------------------------------------------------
  // 3. Reset keeps the current node

  /**
   * As written: `Reset` after `index` steps rewinds `index` to 0 but
   * `Current` still returns the element at `index - 1` where a fresh
   * enumerator's `Current` throws.
   */
  lemma ResetLeavesStaleCurrent<T>(en: Enumerator, l: List<T>)
    requires Tracks(en, l) && en.index > 0
    ensures var res := Reset(en, l);
      && res.Done?
      && res.state.index == 0
      && Current(res.state, l) == Success(Contents(l)[en.index - 1])
      && Current(GetEnumerator(l), l) == Failure(InvalidOperation)
  {
  }

  /** On "ab", one `MoveNext` and a `Reset` leave `Current` reading 'a'. */
  lemma ResetExample()
    ensures var l := FromSequence(Some("ab"));
      && l.Success?
      && var en := MoveNext(GetEnumerator(l.value), l.value);
      && en.Done?
      && var res := Reset(en.state, l.value);
      && res.Done?
      && Current(res.state, l.value) == Success('a')
  {
    FromSequenceBuilds(Some("ab"));
    var l := FromSequence(Some("ab")).value;
    MoveNextAdvances(GetEnumerator(l), l);
    ResetLeavesStaleCurrent(MoveNext(GetEnumerator(l), l).state, l);
  }

  /** `Reset()` repaired: it also sets `current` to null. */
  function ResetCorrected<T>(en: Enumerator, l: List<T>): (res: Outcome<Enumerator, ()>)
    ensures res.Done? <==> InSync(en, l)
    ensures res.Threw? ==> res == Threw(InvalidOperation, en)
    ensures res.Done? ==> res.state == GetEnumerator(l)
  {
    Rewind(en, l, true)
  }

  /**
   * Repaired `Reset`: on an enumerator in step with the list it restores the
   * state `GetEnumerator` creates, so `Current` throws until `MoveNext` and a
   * further `foreach` yields the contents again; after a change to the list
   * it throws invalid-operation.
   */
  lemma ResetCorrectedRestarts<T>(en: Enumerator, l: List<T>)
    requires ForwardValid(l)
    ensures var res := ResetCorrected(en, l);
      if InSync(en, l) then
        && res == Done(GetEnumerator(l), ())
        && Current(res.state, l) == Failure(InvalidOperation)
        && Drain(res.state, l) == Success(Contents(l))
      else
        res == Threw(InvalidOperation, en)
  {
    EnumerationYieldsContents(l);
  }
}
