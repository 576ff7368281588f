/**
 * Node storage for the doubly linked list. A C# object reference becomes an
 * index into an arena of node records; allocating a node appends a record.
 * Records are never removed: an unreachable node is simply never visited
 * again, while a node still referenced by a stale link stays readable, as
 * the garbage collector would keep it.
 */
module Arena {
  import opened Wrappers

  /** A node reference: `None` is C#'s null, `Some(id)` names the record at index `id`. */
  type Ref = Option<nat>

  /** The list's private nested `Node`: an immutable value and two mutable links. */
  datatype Node<T> = Node(value: T, prev: Ref, next: Ref)

  /** `r` is null or names a record of `nodes`. */
  predicate Points<T>(nodes: seq<Node<T>>, r: Ref) {
    r.None? || r.value < |nodes|
  }

  /** Every link stored in the arena names a record of the arena: references never dangle. */
  predicate Closed<T>(nodes: seq<Node<T>>) {
    forall i | 0 <= i < |nodes| :: Points(nodes, nodes[i].prev) && Points(nodes, nodes[i].next)
  }

  /** Redirects the `next` link of the node stored at `id` to `r`. */
  function SetNext<T>(nodes: seq<Node<T>>, id: nat, r: Ref): (nodes': seq<Node<T>>)
    requires id < |nodes|
    ensures Closed(nodes) && Points(nodes, r) ==> Closed(nodes')
  {
    nodes[id := nodes[id].(next := r)]
  }

  /** Redirects the `prev` link of the node stored at `id` to `r`. */
  function SetPrev<T>(nodes: seq<Node<T>>, id: nat, r: Ref): (nodes': seq<Node<T>>)
    requires id < |nodes|
    ensures Closed(nodes) && Points(nodes, r) ==> Closed(nodes')
  {
    nodes[id := nodes[id].(prev := r)]
  }

  /** Allocates a node holding `value` with the given links; the new record gets id `|nodes|`. */
  function Alloc<T>(nodes: seq<Node<T>>, value: T, prev: Ref, next: Ref): (nodes': seq<Node<T>>)
    ensures |nodes'| == |nodes| + 1 && nodes'[..|nodes|] == nodes
    ensures Closed(nodes) && Points(nodes', prev) && Points(nodes', next) ==> Closed(nodes')
  {
    nodes + [Node(value, prev, next)]
  }

  // ---------------------------------------------------------------------------
  // Chains: a sequence of node ids read as a list, head first.

  /** Every id of `ids` names a record of `nodes`. */
  predicate Within<T>(nodes: seq<Node<T>>, ids: seq<nat>) {
    forall k | 0 <= k < |ids| :: ids[k] < |nodes|
  }

  /** No node occurs twice in `ids`. */
  predicate Distinct(ids: seq<nat>) {
    forall j, k | 0 <= j < k < |ids| :: ids[j] != ids[k]
  }

  /** Reference to the first node of the chain (null when empty). */
  function First(ids: seq<nat>): Ref {
    if |ids| == 0 then None else Some(ids[0])
  }

  /** Reference to the last node of the chain (null when empty). */
  function Last(ids: seq<nat>): Ref {
    if |ids| == 0 then None else Some(ids[|ids| - 1])
  }

  /** Reference to the node at position `k` of the chain, null past its end. */
  function At(ids: seq<nat>, k: nat): Ref {
    if k < |ids| then Some(ids[k]) else None
  }

  /** What the `next` link of the node at position `k` should be. */
  function After(ids: seq<nat>, k: nat): Ref {
    At(ids, k + 1)
  }

  /** What the `prev` link of the node at position `k` should be. */
  function Before(ids: seq<nat>, k: nat): Ref
    requires k < |ids|
  {
    if k == 0 then None else Some(ids[k - 1])
  }

  /** Following `next` from the first node visits exactly `ids` and then reaches null. */
  predicate NextLinked<T>(nodes: seq<Node<T>>, ids: seq<nat>) {
    && Within(nodes, ids)
    && forall k {:trigger nodes[ids[k]]} | 0 <= k < |ids| :: nodes[ids[k]].next == After(ids, k)
  }

  /** Every `prev` link mirrors the `next` link pointing at its node, and the first node's is null. */
  predicate PrevLinked<T>(nodes: seq<Node<T>>, ids: seq<nat>) {
    && Within(nodes, ids)
    && forall k {:trigger nodes[ids[k]]} | 0 <= k < |ids| :: nodes[ids[k]].prev == Before(ids, k)
  }

  /** The values stored along the chain, head first. */
  function Values<T>(nodes: seq<Node<T>>, ids: seq<nat>): (vs: seq<T>)
    requires Within(nodes, ids)
    ensures |vs| == |ids|
  {
    seq(|ids|, k requires 0 <= k < |ids| => nodes[ids[k]].value)
  }

  /**
   * The chain met by following `next` links from `r` until null, visiting at
   * most `fuel` nodes; `None` when the walk is still going after `fuel` nodes.
   */
  function Walk<T>(nodes: seq<Node<T>>, r: Ref, fuel: nat): (ids: Option<seq<nat>>)
    requires Closed(nodes) && Points(nodes, r)
    ensures ids.Some? ==> NextLinked(nodes, ids.value) && First(ids.value) == r
    decreases fuel
  {
    if r.None? then Some([])
    else if fuel == 0 then None
    else match Walk(nodes, nodes[r.value].next, fuel - 1)
      case None => None
      case Some(rest) => Some([r.value] + rest)
  }

  /** A next-linked chain is what a walk from its first node finds, given enough fuel. */
  lemma {:induction false} WalkFinds<T>(nodes: seq<Node<T>>, ids: seq<nat>, fuel: nat)
    requires Closed(nodes) && NextLinked(nodes, ids) && |ids| <= fuel
    ensures Walk(nodes, First(ids), fuel) == Some(ids)
    decreases |ids|
  {
    if |ids| > 0 {
      var rest := ids[1..];
      assert NextLinked(nodes, rest) by {
        forall k | 0 <= k < |rest|
          ensures nodes[rest[k]].next == After(rest, k)
        {
          assert rest[k] == ids[k + 1];
          assert After(ids, k + 1) == After(rest, k);
        }
      }
      assert nodes[ids[0]].next == First(rest);
      WalkFinds(nodes, rest, fuel - 1);
      assert [ids[0]] + rest == ids;
    }
  }

  /** Pigeonhole: a chain of distinct ids below `n` has at most `n` nodes. */
  lemma {:induction false} DistinctBound(ids: seq<nat>, n: nat)
    requires Distinct(ids)
    requires forall k | 0 <= k < |ids| :: ids[k] < n
    ensures |ids| <= n
    decreases n
  {
    if |ids| > 0 {
      assert ids[0] < n;
      if p :| 0 <= p < |ids| && ids[p] == n - 1 {
        var rest := ids[..p] + ids[p + 1..];
        assert forall k | 0 <= k < |rest| :: rest[k] == (if k < p then ids[k] else ids[k + 1]);
        DistinctBound(rest, n - 1);
      } else {
        DistinctBound(ids, n - 1);
      }
    }
  }

  // ---------------------------------------------------------------------------
  // Link surgery on chains

  /**
   * The shape of an append: `nodes'` is `nodes` plus a fresh record (id
   * `|nodes|`) holding `e` whose `prev` is the chain's last node, and only the
   * old last node's `next` link changed, to point at the fresh record.
   */
  ghost predicate Appended<T>(nodes: seq<Node<T>>, nodes': seq<Node<T>>, ids: seq<nat>, e: T) {
    && |nodes'| == |nodes| + 1
    && nodes'[|nodes|] == Node(e, Last(ids), None)
    && (forall i | 0 <= i < |nodes| && Some(i) != Last(ids) :: nodes'[i] == nodes[i])
    && (|ids| > 0 ==> ids[|ids| - 1] < |nodes| && nodes'[ids[|ids| - 1]] == nodes[ids[|ids| - 1]].(next := Some(|nodes|)))
  }

  /** An append extends the chain by the fresh node, in order and without repeats. */
  lemma AppendChain<T>(nodes: seq<Node<T>>, nodes': seq<Node<T>>, ids: seq<nat>, e: T)
    requires Distinct(ids) && NextLinked(nodes, ids) && Appended(nodes, nodes', ids, e)
    ensures Distinct(ids + [|nodes|])
    ensures NextLinked(nodes', ids + [|nodes|])
    ensures Values(nodes', ids + [|nodes|]) == Values(nodes, ids) + [e]
    ensures PrevLinked(nodes, ids) ==> PrevLinked(nodes', ids + [|nodes|])
  {
    AppendNext(nodes, nodes', ids, e);
    AppendValues(nodes, nodes', ids, e);
    if PrevLinked(nodes, ids) {
      AppendPrev(nodes, nodes', ids, e);
    }
  }

  lemma AppendNext<T>(nodes: seq<Node<T>>, nodes': seq<Node<T>>, ids: seq<nat>, e: T)
    requires Distinct(ids) && NextLinked(nodes, ids) && Appended(nodes, nodes', ids, e)
    ensures NextLinked(nodes', ids + [|nodes|])
  {
    var ids' := ids + [|nodes|];
    forall k | 0 <= k < |ids'|
      ensures ids'[k] < |nodes'|
      ensures nodes'[ids'[k]].next == After(ids', k)
    {
      if k < |ids| {
        assert ids'[k] == ids[k] && nodes[ids[k]].next == After(ids, k);
        if k < |ids| - 1 {
          assert ids[k] != ids[|ids| - 1];
        }
      }
    }
  }

  lemma AppendValues<T>(nodes: seq<Node<T>>, nodes': seq<Node<T>>, ids: seq<nat>, e: T)
    requires Distinct(ids) && NextLinked(nodes, ids) && Appended(nodes, nodes', ids, e)
    ensures Within(nodes', ids + [|nodes|])
    ensures Values(nodes', ids + [|nodes|]) == Values(nodes, ids) + [e]
  {
    forall k | 0 <= k < |ids|
      ensures nodes'[ids[k]].value == nodes[ids[k]].value
    {
      if k < |ids| - 1 {
        assert ids[k] != ids[|ids| - 1];
      }
    }
    assert Within(nodes', ids + [|nodes|]);
    assert Values(nodes', ids + [|nodes|]) == Values(nodes, ids) + [e];
  }

  lemma AppendPrev<T>(nodes: seq<Node<T>>, nodes': seq<Node<T>>, ids: seq<nat>, e: T)
    requires Distinct(ids) && NextLinked(nodes, ids) && PrevLinked(nodes, ids)
    requires Appended(nodes, nodes', ids, e)
    ensures PrevLinked(nodes', ids + [|nodes|])
  {
    var ids' := ids + [|nodes|];
    forall k | 0 <= k < |ids'|
      ensures ids'[k] < |nodes'|
      ensures nodes'[ids'[k]].prev == Before(ids', k)
    {
      if k < |ids| {
        assert ids'[k] == ids[k] && nodes[ids[k]].prev == Before(ids, k);
        if k < |ids| - 1 {
          assert ids[k] != ids[|ids| - 1];
        }
      }
    }
  }

  /** The chain `ids` with the fresh id `|nodes|` inserted at position `i`. */
  function InsertedIds(ids: seq<nat>, i: nat, id: nat): (ids': seq<nat>)
    requires i <= |ids|
    ensures |ids'| == |ids| + 1 && ids'[i] == id
    ensures forall k | 0 <= k < i :: ids'[k] == ids[k]
    ensures forall k | i < k < |ids'| :: ids'[k] == ids[k - 1]
  {
    ids[..i] + [id] + ids[i..]
  }

  /**
   * The shape of an insertion before position `i`: a fresh record (id
   * `|nodes|`) holding `e` whose `next` is the node at `i` and whose `prev`
   * is `p`; the node at `i` now has the fresh record as `prev`, the node
   * before it has it as `next`, and nothing else changed.
   */
  ghost predicate Inserted<T>(nodes: seq<Node<T>>, nodes': seq<Node<T>>, ids: seq<nat>, i: nat, e: T, p: Ref)
    requires i < |ids| && Within(nodes, ids)
  {
    && |nodes'| == |nodes| + 1
    && nodes'[|nodes|] == Node(e, p, Some(ids[i]))
    && nodes'[ids[i]] == nodes[ids[i]].(prev := Some(|nodes|))
    && (i > 0 ==> nodes'[ids[i - 1]] == nodes[ids[i - 1]].(next := Some(|nodes|)))
    && (forall j | 0 <= j < |nodes| && j != ids[i] && Some(j) != Before(ids, i) :: nodes'[j] == nodes[j])
  }

  /** An insertion puts the fresh node at position `i` of the forward chain. */
  lemma InsertNext<T>(nodes: seq<Node<T>>, nodes': seq<Node<T>>, ids: seq<nat>, i: nat, e: T, p: Ref)
    requires Distinct(ids) && NextLinked(nodes, ids) && i < |ids|
    requires Inserted(nodes, nodes', ids, i, e, p)
    ensures Distinct(InsertedIds(ids, i, |nodes|))
    ensures NextLinked(nodes', InsertedIds(ids, i, |nodes|))
  {
    var ids' := InsertedIds(ids, i, |nodes|);
    forall j, k | 0 <= j < k < |ids'|
      ensures ids'[j] != ids'[k]
    {
      if k == i {
        assert ids'[j] == ids[j] < |nodes|;
      } else if j == i {
        assert ids'[k] == ids[k - 1] < |nodes|;
      }
    }
    forall k | 0 <= k < |ids'|
      ensures ids'[k] < |nodes'|
      ensures nodes'[ids'[k]].next == After(ids', k)
    {
      if k < i {
        assert nodes[ids[k]].next == After(ids, k);
        assert ids[k] != ids[i];
        if k < i - 1 {
          assert ids[k] != ids[i - 1];
        }
      } else if k > i {
        assert nodes[ids[k - 1]].next == After(ids, k - 1);
        if k - 1 > i {
          assert ids[k - 1] != ids[i];
          assert i > 0 ==> ids[k - 1] != ids[i - 1];
        }
      }
    }
  }

  /**
   * After an insertion on a chain whose prev links were consistent, they
   * stay consistent exactly when the fresh node's `prev` is the node before
   * position `i`.
   */
  lemma InsertPrev<T>(nodes: seq<Node<T>>, nodes': seq<Node<T>>, ids: seq<nat>, i: nat, e: T, p: Ref)
    requires Distinct(ids) && NextLinked(nodes, ids) && PrevLinked(nodes, ids) && i < |ids|
    requires Inserted(nodes, nodes', ids, i, e, p)
    ensures PrevLinked(nodes', InsertedIds(ids, i, |nodes|)) <==> p == Before(ids, i)
  {
    var ids' := InsertedIds(ids, i, |nodes|);
    assert nodes'[ids'[i]].prev == p;
    if p == Before(ids, i) {
      forall k | 0 <= k < |ids'|
        ensures ids'[k] < |nodes'|
        ensures nodes'[ids'[k]].prev == Before(ids', k)
      {
        if k < i {
          assert nodes[ids[k]].prev == Before(ids, k);
          assert ids[k] != ids[i];
        } else if k > i + 1 {
          assert nodes[ids[k - 1]].prev == Before(ids, k - 1);
          assert ids[k - 1] != ids[i];
          assert i > 0 ==> ids[k - 1] != ids[i - 1];
        }
      }
    }
  }

  /**
   * Whatever `p` is, an insertion leaves the prev links from position `i + 1`
   * of the new chain onwards consistent, and the fresh node's `prev` is `p`.
   */
  lemma InsertKeepsLaterPrev<T>(nodes: seq<Node<T>>, nodes': seq<Node<T>>, ids: seq<nat>, i: nat, e: T, p: Ref)
    requires Distinct(ids) && NextLinked(nodes, ids) && PrevLinked(nodes, ids) && i < |ids|
    requires Inserted(nodes, nodes', ids, i, e, p)
    ensures nodes'[|nodes|].prev == p
    ensures var ids' := InsertedIds(ids, i, |nodes|);
      forall k | i < k < |ids'| :: ids'[k] < |nodes'| && nodes'[ids'[k]].prev == Some(ids'[k - 1])
  {
    var ids' := InsertedIds(ids, i, |nodes|);
    forall k | i < k < |ids'|
      ensures ids'[k] < |nodes'| && nodes'[ids'[k]].prev == Some(ids'[k - 1])
    {
      if k > i + 1 {
        assert nodes[ids[k - 1]].prev == Before(ids, k - 1);
        assert ids[k - 1] != ids[i];
        assert i > 0 ==> ids[k - 1] != ids[i - 1];
      }
    }
  }

  /** An insertion puts `e` at position `i` of the chain's values. */
  lemma InsertValues<T>(nodes: seq<Node<T>>, nodes': seq<Node<T>>, ids: seq<nat>, i: nat, e: T, p: Ref)
    requires Distinct(ids) && NextLinked(nodes, ids) && i < |ids|
    requires Inserted(nodes, nodes', ids, i, e, p)
    ensures Within(nodes', InsertedIds(ids, i, |nodes|))
    ensures Values(nodes', InsertedIds(ids, i, |nodes|)) == Values(nodes, ids)[..i] + [e] + Values(nodes, ids)[i..]
  {
    var ids' := InsertedIds(ids, i, |nodes|);
    var vs := Values(nodes, ids);
    var expected := vs[..i] + [e] + vs[i..];
    SpliceIndex(vs, i, e);
    assert Within(nodes', ids');
    var ws := Values(nodes', ids');
    forall k | 0 <= k < |ws|
      ensures ws[k] == expected[k]
    {
      if k < i {
        assert ids'[k] == ids[k] && ids[k] != ids[i];
        assert k != i - 1 ==> ids[k] != ids[i - 1];
      } else if k > i {
        assert ids'[k] == ids[k - 1];
        assert k - 1 != i ==> ids[k - 1] != ids[i];
        assert ids[k - 1] != ids[i] && i > 0 ==> ids[k - 1] != ids[i - 1];
      }
    }
  }

  /** The chain `ids` without its node at position `i`. */
  function RemovedIds(ids: seq<nat>, i: nat): (ids': seq<nat>)
    requires i < |ids|
    ensures |ids'| == |ids| - 1
    ensures forall k | 0 <= k < i :: ids'[k] == ids[k]
    ensures forall k | i <= k < |ids'| :: ids'[k] == ids[k + 1]
  {
    ids[..i] + ids[i + 1..]
  }

  /**
   * The shape of a deletion of position `i`: the node before it now has the
   * node after it as `next`, the node after it has the node before it as
   * `prev`, and no other node of the arena but the deleted one changed.
   */
  ghost predicate Deleted<T>(nodes: seq<Node<T>>, nodes': seq<Node<T>>, ids: seq<nat>, i: nat)
    requires i < |ids| && Within(nodes, ids)
  {
    && |nodes'| == |nodes|
    && (i > 0 ==> nodes'[ids[i - 1]] == nodes[ids[i - 1]].(next := After(ids, i)))
    && (i + 1 < |ids| ==> nodes'[ids[i + 1]] == nodes[ids[i + 1]].(prev := Before(ids, i)))
    && (forall j | 0 <= j < |nodes| && j != ids[i] && Some(j) != Before(ids, i) && Some(j) != After(ids, i)
          :: nodes'[j] == nodes[j])
  }

  /** A deletion leaves the other nodes of the forward chain, in order. */
  lemma DeleteNext<T>(nodes: seq<Node<T>>, nodes': seq<Node<T>>, ids: seq<nat>, i: nat)
    requires Distinct(ids) && NextLinked(nodes, ids) && i < |ids|
    requires Deleted(nodes, nodes', ids, i)
    ensures Distinct(RemovedIds(ids, i))
    ensures NextLinked(nodes', RemovedIds(ids, i))
  {
    var ids' := RemovedIds(ids, i);
    forall k | 0 <= k < |ids'|
      ensures ids'[k] < |nodes'|
      ensures nodes'[ids'[k]].next == After(ids', k)
    {
      if k < i {
        assert nodes[ids[k]].next == After(ids, k);
        assert ids[k] != ids[i];
        if k < i - 1 {
          assert ids[k] != ids[i - 1];
          assert i + 1 < |ids| ==> ids[k] != ids[i + 1];
        }
      } else {
        assert nodes[ids[k + 1]].next == After(ids, k + 1);
        assert ids[k + 1] != ids[i];
        assert i > 0 ==> ids[k + 1] != ids[i - 1];
        if k > i {
          assert ids[k + 1] != ids[i + 1];
        }
      }
    }
  }

  /** A deletion keeps consistent prev links consistent. */
  lemma DeletePrev<T>(nodes: seq<Node<T>>, nodes': seq<Node<T>>, ids: seq<nat>, i: nat)
    requires Distinct(ids) && NextLinked(nodes, ids) && PrevLinked(nodes, ids) && i < |ids|
    requires Deleted(nodes, nodes', ids, i)
    ensures PrevLinked(nodes', RemovedIds(ids, i))
  {
    var ids' := RemovedIds(ids, i);
    forall k | 0 <= k < |ids'|
      ensures ids'[k] < |nodes'|
      ensures nodes'[ids'[k]].prev == Before(ids', k)
    {
      if k < i {
        assert nodes[ids[k]].prev == Before(ids, k);
        assert ids[k] != ids[i];
        assert i + 1 < |ids| ==> ids[k] != ids[i + 1];
        if k < i - 1 {
          assert ids[k] != ids[i - 1];
        }
      } else {
        assert nodes[ids[k + 1]].prev == Before(ids, k + 1);
        assert ids[k + 1] != ids[i];
        assert i > 0 ==> ids[k + 1] != ids[i - 1];
        if k > i {
          assert ids[k + 1] != ids[i + 1];
        }
      }
    }
  }

  /** A deletion drops the value at position `i`. */
  lemma DeleteValues<T>(nodes: seq<Node<T>>, nodes': seq<Node<T>>, ids: seq<nat>, i: nat)
    requires Distinct(ids) && NextLinked(nodes, ids) && i < |ids|
    requires Deleted(nodes, nodes', ids, i)
    ensures Within(nodes', RemovedIds(ids, i))
    ensures Values(nodes', RemovedIds(ids, i)) == Values(nodes, ids)[..i] + Values(nodes, ids)[i + 1..]
  {
    var ids' := RemovedIds(ids, i);
    var vs := Values(nodes, ids);
    var expected := vs[..i] + vs[i + 1..];
    CutIndex(vs, i);
    assert Within(nodes', ids');
    var ws := Values(nodes', ids');
    forall k | 0 <= k < |ws|
      ensures ws[k] == expected[k]
    {
      if k < i {
        assert ids[k] != ids[i];
        assert k != i - 1 ==> ids[k] != ids[i - 1];
        assert i + 1 < |ids| ==> ids[k] != ids[i + 1];
      } else {
        assert ids[k + 1] != ids[i];
        assert k + 1 != i + 1 ==> ids[k + 1] != ids[i + 1];
        assert i > 0 ==> ids[k + 1] != ids[i - 1];
      }
    }
  }

  /** Where each remaining element of `a` lands once position `i` is cut out. */
  lemma CutIndex<T>(a: seq<T>, i: nat)
    requires i < |a|
    ensures |a[..i] + a[i + 1..]| == |a| - 1
    ensures forall k | 0 <= k < i :: (a[..i] + a[i + 1..])[k] == a[k]
    ensures forall k | i < k < |a| :: (a[..i] + a[i + 1..])[k - 1] == a[k]
  {
  }

  /**
   * The link surgery of `RemoveAt` on node `n`: its successor takes its
   * `prev`, its predecessor takes its `next`, each only if present, and then
   * both of its own links are cleared.
   */
  function Detach<T>(nodes: seq<Node<T>>, n: nat): (nodes': seq<Node<T>>)
    requires Closed(nodes) && n < |nodes|
    ensures Closed(nodes') && |nodes'| == |nodes|
    ensures forall i | 0 <= i < |nodes| :: nodes'[i].value == nodes[i].value
    ensures nodes'[n].prev == None && nodes'[n].next == None
  {
    var node := nodes[n];
    // the successor, if any, takes over the node's prev link
    var nodes1 := if node.next.Some? then SetPrev(nodes, node.next.value, node.prev) else nodes;
    // the predecessor, if any, takes over the node's next link
    var nodes2 := if nodes1[n].prev.Some? then SetNext(nodes1, nodes1[n].prev.value, nodes1[n].next) else nodes1;
    // the node itself is left with no links
    nodes2[n := nodes2[n].(prev := None, next := None)]
  }

  /** Detaching the node at position `i` of a consistent chain is a deletion that clears its links. */
  lemma DetachDeletes<T>(nodes: seq<Node<T>>, ids: seq<nat>, i: nat)
    requires Closed(nodes) && Distinct(ids) && NextLinked(nodes, ids) && PrevLinked(nodes, ids) && i < |ids|
    ensures Deleted(nodes, Detach(nodes, ids[i]), ids, i)
    ensures Detach(nodes, ids[i])[ids[i]] == Node(nodes[ids[i]].value, None, None)
  {
    var n := ids[i];
    assert nodes[n].prev == Before(ids, i);
    assert nodes[n].next == After(ids, i);
    assert i > 0 && i + 1 < |ids| ==> ids[i - 1] != ids[i + 1];
    assert i + 1 < |ids| ==> ids[i + 1] != n;
    assert i > 0 ==> ids[i - 1] != n;
  }

  /**
   * Bypassing an interior node, first the `next` of its predecessor and then
   * the `prev` of its successor, is a deletion.
   */
  lemma BypassDeletes<T>(nodes: seq<Node<T>>, ids: seq<nat>, i: nat)
    requires Closed(nodes) && Distinct(ids) && NextLinked(nodes, ids) && 0 < i < |ids| - 1
    ensures Deleted(nodes, SetPrev(SetNext(nodes, ids[i - 1], After(ids, i)), ids[i + 1], Before(ids, i)), ids, i)
  {
    assert ids[i - 1] != ids[i + 1];
  }

  /**
   * Detaching an interior node whose `prev` is null leaves its predecessor's
   * `next` on it and clears its own: the chain now ends there.
   */
  lemma DetachUnlinked<T>(nodes: seq<Node<T>>, ids: seq<nat>, i: nat)
    requires Closed(nodes) && Distinct(ids) && NextLinked(nodes, ids) && 0 < i < |ids| - 1
    requires nodes[ids[i]].prev == None
    ensures Distinct(ids[..i + 1])
    ensures NextLinked(Detach(nodes, ids[i]), ids[..i + 1])
    ensures Values(Detach(nodes, ids[i]), ids[..i + 1]) == Values(nodes, ids)[..i + 1]
  {
    var c := ids[..i + 1];
    var nodes' := Detach(nodes, ids[i]);
    assert nodes[ids[i]].next == Some(ids[i + 1]);
    assert nodes' == SetPrev(nodes, ids[i + 1], None)[ids[i] := nodes[ids[i]].(next := None)];
    forall k | 0 <= k < |c|
      ensures c[k] < |nodes'| && nodes'[c[k]].next == After(c, k) && nodes'[c[k]].value == nodes[ids[k]].value
    {
      assert nodes[ids[k]].next == After(ids, k);
      if k < i {
        assert ids[k] != ids[i] && ids[k] != ids[i + 1];
      }
    }
  }

  /** Where each element of `a` lands once `e` is inserted at position `i`. */
  lemma SpliceIndex<T>(a: seq<T>, i: nat, e: T)
    requires i <= |a|
    ensures |a[..i] + [e] + a[i..]| == |a| + 1
    ensures forall k | 0 <= k < i :: (a[..i] + [e] + a[i..])[k] == a[k]
    ensures (a[..i] + [e] + a[i..])[i] == e
    ensures forall k | i < k <= |a| :: (a[..i] + [e] + a[i..])[k] == a[k - 1]
  {
  }
}
