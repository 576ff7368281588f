# Doubly linked list and hybrid flow processor, in Dafny

A model of the generic `DoublyLinkedList<T>` of `Tasks/DoublyLinkedList.cs` and of the
`HybridFlowProcessor<T>` queue/stack adapter of `Tasks/HybridFlowProcessor.cs`.

The list's nodes live in an arena (`Arena`). The arena is a sequence of node records
`Node(value, prev, next)`, and C#'s object references become indices into it. A null
reference is `None`. Allocating a node appends a record. Records are never deleted, so a
node that a stale link still reaches stays readable, as it would under the garbage collector.

A list (`DoublyLinkedList.List`) is the arena plus the four fields of the class: `head`,
`tail`, `Length` and `version`. Every operation is a pure function from the list before the
call to the list after it. The operations are total on any list whose references name arena
nodes (`Anchored`). The source's link defects are therefore observable: a null
dereference is the outcome `Threw(NullReference, state)`. `state` is the list as the
exception leaves it, because an exception does not undo the assignments made before it.

The abstraction is `Spine`, the node ids met walking `next` from `head` until null, with
fuel equal to the arena size. `Contents` is the values along the spine. There are two invariants:

- `ForwardValid`: the walk ends, has no repeated node, has `Length` nodes and ends at `tail`.
- `Valid`: `ForwardValid`, and in addition every `prev` link mirrors the forward chain.

Modules:

- `Wrappers`: `Option` and `Result`.
- `Arena`: node records, link updates, the chain predicates, and the shape lemmas for
  append, insert and delete.
- `DoublyLinkedList`: the class's fields and operations, the abstraction and the invariants.
- `ListProperties`: what each list operation does to `Contents`, and which invariant it keeps.
- `ListEnumerator`: the fail-fast `Enumerator` struct, and a `foreach` over it (`Drain`).
- `HybridFlowProcessor`: `Enqueue`, `Dequeue`, `Push` and `Pop`, with the FIFO and LIFO laws.
- `Findings`: the three defects below, shown on the code as written, plus the repaired
  operations and their proofs.

The code is modelled as written. The design intent that the code misses is recorded under
"## Findings". In four places the code disagrees with the design intent:

- Removing the only element does not empty the list.
- `AddAt` followed by `RemoveAt` at the same position is not a no-op.
- A failed call may leave a partly changed list: `Remove` of the only element nulls `head`
  and then throws.
- `version` is a C# `int` and wraps from `int.MaxValue` to `int.MinValue`. It does not grow
  without bound.

In each case the model follows the code.

## Model

| member | source | states |
|---|---|---|
| DoublyLinkedList.Bump | Tasks/DoublyLinkedList.cs:45 | `version++` adds one below `int.MaxValue` and wraps from `int.MaxValue` to `int.MinValue`; so it always changes the counter and keeps it within the C# `int` range |
| DoublyLinkedList.Route | Tasks/DoublyLinkedList.cs:231-243 | `NodeAt` walks forward exactly when `index <= Length / 2`, and follows at most `Length / 2` links: `index` links forward from `head`, or `Length - 1 - index` links back from `tail` |
| DoublyLinkedList.Follow | Tasks/DoublyLinkedList.cs:234-247 | walking `hops` links stays inside the arena, and the only way it fails is a null dereference |
| DoublyLinkedList.Empty | Tasks/DoublyLinkedList.cs:15-17 | the parameterless constructor gives a consistent list with no elements and `Length` 0 |
| DoublyLinkedList.Add | Tasks/DoublyLinkedList.cs:32-46 | `Add` allocates exactly one node and leaves every reference naming a node |
| DoublyLinkedList.AddAll | Tasks/DoublyLinkedList.cs:26-29 | adding the items of `xs` allocates one node per item and leaves every reference naming a node |
| DoublyLinkedList.FromSequence | Tasks/DoublyLinkedList.cs:19-30 | the constructor throws argument-null exactly when the sequence is null; otherwise it allocates one node per item |
| DoublyLinkedList.NodeAt | Tasks/DoublyLinkedList.cs:228-250 | `NodeAt` returns null or a node of the arena, and the only way it fails is a null dereference |
| DoublyLinkedList.ElementAt | Tasks/DoublyLinkedList.cs:77-85 | `ElementAt` throws out-of-range exactly when `index` is outside `0 <= index < Length`; its only other failure is a null dereference |
| DoublyLinkedList.AddAt | Tasks/DoublyLinkedList.cs:48-75 | `AddAt` as written throws out-of-range exactly when `index` is outside `0 <= index <= Length`, can otherwise fail only by a null dereference, and on completion adds 1 to `Length` and bumps `version` once |
| DoublyLinkedList.Insert | Tasks/DoublyLinkedList.cs:48-75 | the same for either variant of the `AddAt` body |
| DoublyLinkedList.Remove | Tasks/DoublyLinkedList.cs:87-117 | `Remove` as written keeps the arena's size; it can throw only a null dereference (or loop forever on a cycle), and on completion it either changes nothing or subtracts 1 from `Length` and bumps `version` once |
| DoublyLinkedList.Scan | Tasks/DoublyLinkedList.cs:89-116 | the same for the removal loop from any node, with either variant of the match branch |
| DoublyLinkedList.Unlink | Tasks/DoublyLinkedList.cs:93-112 | detaching a matched node can throw only a null dereference, and on completion subtracts 1 from `Length` and bumps `version` once |
| DoublyLinkedList.RemoveAt | Tasks/DoublyLinkedList.cs:119-152 | `RemoveAt` throws out-of-range exactly when `index` is outside `0 <= index < Length`; its only other failure is a null dereference; a throw leaves the list exactly as it was; completion subtracts 1 from `Length` and bumps `version` once |
| Arena.Detach | Tasks/DoublyLinkedList.cs:137-148 | the link surgery of `RemoveAt` changes no node's value and leaves the detached node with null links |
| DoublyLinkedList.IsEquals | Tasks/DoublyLinkedList.cs:226 | null matches only null; otherwise values match exactly when equal (both directions) |
| Arena.AppendChain | Tasks/DoublyLinkedList.cs:34-42 | linking a fresh node after the last one extends the chain by that node and its value, and keeps consistent prev links consistent |
| Arena.InsertNext | Tasks/DoublyLinkedList.cs:62-72 | the insertion surgery puts the fresh node at position `i` of the forward chain, with no repeated node |
| Arena.InsertPrev | Tasks/DoublyLinkedList.cs:62-72 | after the insertion surgery the prev links are consistent if and only if the fresh node's `prev` is the node before position `i` |
| Arena.InsertKeepsLaterPrev | Tasks/DoublyLinkedList.cs:62-72 | whatever the fresh node's `prev` is, the prev links from the node after it onwards stay consistent |
| Arena.InsertValues | Tasks/DoublyLinkedList.cs:62-72 | the insertion surgery puts `e` at position `i` of the chain's values |
| Arena.DetachDeletes | Tasks/DoublyLinkedList.cs:137-148 | detaching a node of a consistent chain is a deletion, and it clears the node's links |
| Arena.BypassDeletes | Tasks/DoublyLinkedList.cs:104-108 | setting the predecessor's `next` and then the successor's `prev` around an interior node is a deletion |
| Arena.DeleteNext | Tasks/DoublyLinkedList.cs:137-148 | a deletion leaves the other nodes of the forward chain, in order and distinct |
| Arena.DeletePrev | Tasks/DoublyLinkedList.cs:137-148 | a deletion keeps consistent prev links consistent |
| Arena.DeleteValues | Tasks/DoublyLinkedList.cs:137-148 | a deletion drops exactly the value at position `i` |
| Arena.DetachUnlinked | Tasks/DoublyLinkedList.cs:137-148 | detaching an interior node whose `prev` is null leaves its predecessor pointing at it, so the chain ends there |
| ListProperties.AddAppends | Tasks/DoublyLinkedList.cs:32-46 | `Add(e)` turns the contents `s` into `s + [e]`, makes the new node the tail, adds 1 to `Length`, bumps `version` once, and keeps both invariants |
| ListProperties.AddAllAppends | Tasks/DoublyLinkedList.cs:26-29 | adding the items of `xs` one by one appends `xs` to the contents and adds `|xs|` to `Length` |
| ListProperties.AddAllKeepsValid | Tasks/DoublyLinkedList.cs:26-29 | adding items one by one keeps the prev links consistent |
| ListProperties.FromSequenceBuilds | Tasks/DoublyLinkedList.cs:19-30 | a null sequence throws argument-null; otherwise the list is consistent, holds the items in order, and has `Length` equal to their count |
| ListProperties.FollowNext | Tasks/DoublyLinkedList.cs:233-237 | following `hops` next links from position `j` lands on position `j + hops` |
| ListProperties.FollowPrev | Tasks/DoublyLinkedList.cs:242-247 | following `hops` prev links from position `j` lands on position `j - hops` |
| ListProperties.NodeAtFinds | Tasks/DoublyLinkedList.cs:228-250 | on a consistent list `NodeAt(index)` returns the node at position `index`; on a list whose prev links are broken it still does so for the first half |
| ListProperties.ElementAtReads | Tasks/DoublyLinkedList.cs:77-85 | on a consistent list `ElementAt(index)` returns `s[index]` inside `0 <= index < Length`, and throws out-of-range outside, including at `-1` and `Length` |
| ListProperties.AddAtRejects | Tasks/DoublyLinkedList.cs:50-53 | `AddAt` outside `0 <= index <= Length` throws out-of-range and leaves the list unchanged |
| ListProperties.AddAtEnd | Tasks/DoublyLinkedList.cs:55-59 | `AddAt(Length, e)` is exactly `Add(e)`: `s + [e]` and one `version` bump |
| ListProperties.InsertShape | Tasks/DoublyLinkedList.cs:61-74 | an insertion before an existing node of a consistent list performs the insertion surgery, moves `head` only when `index == 0`, and leaves `tail` alone |
| ListProperties.InsertPlaces | Tasks/DoublyLinkedList.cs:61-74 | an insertion at `0 <= index < Length` gives the contents `s[..index] + [e] + s[index..]` with the forward invariant; the prev links stay consistent if and only if `index == 0` or the new node is linked back |
| ListProperties.AddAtInserts | Tasks/DoublyLinkedList.cs:61-74 | `AddAt` as written at `0 <= index < Length` gives the forward contents `s[..index] + [e] + s[index..]`, moves `head` when `index == 0`, and bumps `Length` and `version`; the prev links stay consistent if and only if `index == 0` |
| ListProperties.RemoveAtShape | Tasks/DoublyLinkedList.cs:119-152 | `RemoveAt` on a consistent list performs a deletion, clears the node's links, and moves `head` and `tail` onto the new ends |
| ListProperties.RemoveAtDeletes | Tasks/DoublyLinkedList.cs:119-152 | `RemoveAt(index)` inside the range returns `s[index]`, leaves `s[..index] + s[index + 1..]` with both invariants, subtracts 1 from `Length`, bumps `version`, clears the removed node's links, and leaves null `head` and `tail` on an emptied list; outside the range it throws out-of-range and changes nothing |
| ListProperties.ScanStops | Tasks/DoublyLinkedList.cs:89-116 | the removal loop passes over the non-matching nodes and stops at the first match, or at the null after the last node |
| ListProperties.UnlinkShape | Tasks/DoublyLinkedList.cs:94-108 | removing a matched node of a consistent list of two or more nodes is a deletion that moves `head` or `tail` when the node is at an end |
| ListProperties.UnlinkFirst | Tasks/DoublyLinkedList.cs:94-98 | removing the matched head of a list of two or more nodes makes its successor the head, with a null `prev` |
| ListProperties.UnlinkLast | Tasks/DoublyLinkedList.cs:99-103 | removing the matched tail of a list of two or more nodes makes its predecessor the tail, with a null `next` |
| ListProperties.UnlinkInterior | Tasks/DoublyLinkedList.cs:104-108 | removing an interior matched node joins its two neighbours |
| ListProperties.ScanRemoves | Tasks/DoublyLinkedList.cs:87-117 | with the first match at `k`, the removal leaves `s[..k] + s[k + 1..]` with both invariants, subtracts 1 from `Length` and bumps `version`; with no match nothing changes; the code as written throws on a one-element list |
| ListProperties.RemoveFirstMatch | Tasks/DoublyLinkedList.cs:87-117 | `Remove(item)` as written, on a consistent list of two or more elements, removes exactly the first element that `IsEquals` matches, or changes nothing (not even `version`) when none matches |
| ListProperties.ChangesBumpVersion | Tasks/DoublyLinkedList.cs:32-152 | `Add`, `AddAt` and `RemoveAt` bump `version` exactly once when they complete, and leave it unchanged when they throw |
| ListProperties.ScanVersion | Tasks/DoublyLinkedList.cs:87-117 | the removal loop either changes nothing or removes one node with one `version` bump; when it throws, `version` is unchanged |
| ListProperties.RemoveVersion | Tasks/DoublyLinkedList.cs:87-117 | `Remove` on any list either leaves the list exactly as it was or subtracts 1 from `Length` and bumps `version` once; when it throws, `version` is unchanged |
| ListEnumerator.Current | Tasks/DoublyLinkedList.cs:173-185 | reading `Current` succeeds exactly when the list is unchanged since capture and a current node is set; otherwise it throws invalid-operation |
| ListEnumerator.MoveNext | Tasks/DoublyLinkedList.cs:187-198 | a step throws invalid-operation exactly when the list has changed since capture; in step, the first step takes `head`, the step at `index == Length` answers false and clears `current`, and a step that answers true was taken before the end and advanced `index` by one |
| ListEnumerator.GetEnumerator | Tasks/DoublyLinkedList.cs:154-171 | a fresh enumerator is in step with the list, and `Current` throws before the first `MoveNext` |
| ListEnumerator.Reset | Tasks/DoublyLinkedList.cs:200-204 | `Reset` as written completes exactly when the list is unchanged since capture, and then rewinds `index` to 0 but keeps `current`; otherwise it throws invalid-operation |
| ListEnumerator.Rewind | Tasks/DoublyLinkedList.cs:200-204 | either variant of `Reset` completes exactly when in step, rewinding `index` to 0; the variant that clears `current` gives exactly a fresh enumerator |
| ListEnumerator.Drain | Tasks/DoublyLinkedList.cs:173-198 | a `foreach` from step `index` yields at most `Length - index` items, and can fail only with invalid-operation or a null dereference |
| ListEnumerator.MoveNextAdvances | Tasks/DoublyLinkedList.cs:187-198 | on an unchanged list with a consistent forward chain (prev links may be broken), a step before the end answers true, and `Current` then reads the element at the old `index` |
| ListEnumerator.MoveNextEnds | Tasks/DoublyLinkedList.cs:190-194 | the step after the last element answers false and clears `current`, so `Current` then throws |
| ListEnumerator.DrainYields | Tasks/DoublyLinkedList.cs:173-198 | on an unchanged list with a consistent forward chain (prev links may be broken), a `foreach` from step `index` yields `s[index..]` |
| ListEnumerator.EnumerationYieldsContents | Tasks/DoublyLinkedList.cs:154-198 | a fresh enumerator over an unchanged list with a consistent forward chain yields exactly `s`, head to tail, and `Current` throws before the first step |
| ListEnumerator.StaleEnumeratorThrows | Tasks/DoublyLinkedList.cs:217-223 | once the list's `version` differs from the captured one, `MoveNext`, `Current` and `Reset` all throw invalid-operation |
| ListEnumerator.AddDuringIterationThrows | Tasks/DoublyLinkedList.cs:32-46 | an `Add` between two steps of an iteration makes the next step and `Current` throw invalid-operation |
| HybridFlowProcessor.New | Tasks/HybridFlowProcessor.cs:10-13 | a new processor holds a consistent, empty list |
| HybridFlowProcessor.Enqueue | Tasks/HybridFlowProcessor.cs:24-27 | `Enqueue` adds 1 to the list's `Length` and leaves every reference naming a node |
| HybridFlowProcessor.Push | Tasks/HybridFlowProcessor.cs:38-41 | `Push` does exactly what `Enqueue` does: it adds 1 to `Length` |
| HybridFlowProcessor.Dequeue | Tasks/HybridFlowProcessor.cs:15-22 | `Dequeue` throws invalid-operation exactly when the processor is empty; any throw leaves it unchanged; completion removes one element |
| HybridFlowProcessor.Pop | Tasks/HybridFlowProcessor.cs:29-36 | `Pop` throws invalid-operation exactly when the processor is empty; any throw leaves it unchanged; completion removes one element |
| HybridFlowProcessor.EnqueueAppends | Tasks/HybridFlowProcessor.cs:24-41 | `Enqueue(x)` and `Push(x)` have the same effect: the contents `s` become `s + [x]`, and the invariant is kept |
| HybridFlowProcessor.DequeueTakesFirst | Tasks/HybridFlowProcessor.cs:15-22 | `Dequeue` on an empty processor throws invalid-operation and changes nothing; otherwise it returns `s[0]` and leaves `s[1..]` |
| HybridFlowProcessor.PopTakesLast | Tasks/HybridFlowProcessor.cs:29-36 | `Pop` on an empty processor throws invalid-operation and changes nothing; otherwise it returns `s[|s| - 1]` and leaves `s[..|s| - 1]` |
| HybridFlowProcessor.PushPop | Tasks/HybridFlowProcessor.cs:29-41 | `Push(x)` followed by `Pop()` returns `x` and restores the contents (LIFO) |
| HybridFlowProcessor.EnqueueAllAppends | Tasks/HybridFlowProcessor.cs:24-27 | enqueueing the items of `xs` in order appends `xs` to the contents |
| HybridFlowProcessor.DequeueManyTakesPrefix | Tasks/HybridFlowProcessor.cs:15-22 | `n` dequeues return the first `n` elements in order and leave the rest |
| HybridFlowProcessor.FifoOrder | Tasks/HybridFlowProcessor.cs:15-27 | after enqueueing `xs`, dequeueing everything returns the elements already held and then `xs`, in order, and empties the processor (FIFO) |
| HybridFlowProcessor.Fifo | Tasks/HybridFlowProcessor.cs:10-27 | starting from a new processor, the elements come out exactly as `xs` went in |
| Findings.FollowBackRun | Tasks/DoublyLinkedList.cs:242-247 | over a run of consistent prev links the backward walk moves one position per hop |
| Findings.TailRead | Tasks/DoublyLinkedList.cs:242-249 | when the backward chain ends at position `i` with a null `prev`, `NodeAt(j)` from the tail side finds position `j` for `j >= i`, returns null for `j == i - 1`, and dereferences null for `j < i - 1` |
| Findings.BackwardRead | Tasks/DoublyLinkedList.cs:77-85 | on such a list `ElementAt(j)` throws a null dereference exactly when `i > j > Length / 2`, and reads `s[j]` otherwise |
| Findings.AddAtElementAt | Tasks/DoublyLinkedList.cs:61-85 | after `AddAt` as written at `0 <= index < Length`, `ElementAt(j)` throws a null dereference exactly for `index > j > (Length + 1) / 2`, and otherwise reads the inserted contents |
| Findings.AddAtElementAtExample | Tasks/DoublyLinkedList.cs:61-85 | on "abcdef", `AddAt(5, 'x')` gives the contents "abcdexf", yet `ElementAt(4)` throws |
| Findings.RemoveAtUnlinkedNode | Tasks/DoublyLinkedList.cs:137-148 | `RemoveAt` of an interior node with a null `prev`, reached from the head, returns its value but leaves only positions `0..i` reachable |
| Findings.AddAtRemoveAtLosesTail | Tasks/DoublyLinkedList.cs:61-152 | `AddAt(index, e)` as written, then `RemoveAt(index)` reached from the head, returns `e`, but the contents become `s[..index] + [e]` while `Length` stays `|s|` |
| Findings.AddAtEnumerates | Tasks/DoublyLinkedList.cs:61-74 | `AddAt` as written at `0 <= index < Length` still enumerates as `s[..index] + [e] + s[index..]`, since the enumerator follows only next links |
| Findings.AddAtCorrected | Tasks/DoublyLinkedList.cs:48-75 | the repaired `AddAt` throws out-of-range exactly when `index` is outside `0 <= index <= Length`, and on completion adds 1 to `Length` and bumps `version` once |
| Findings.AddAtCorrectedInserts | Tasks/DoublyLinkedList.cs:48-74 | the repaired `AddAt` inserts `e` at any `0 <= index <= Length` and keeps both invariants; outside that range it throws out-of-range and changes nothing |
| Findings.RemoveAtSplice | Tasks/DoublyLinkedList.cs:119-152 | on a consistent list holding `s[..index] + [e] + s[index..]`, `RemoveAt(index)` returns `e` and leaves `s` |
| Findings.AddAtCorrectedRoundTrip | Tasks/DoublyLinkedList.cs:48-152 | with the repair, `RemoveAt(index)` undoes `AddAt(index, e)`: it returns `e` and restores the contents and `Length` |
| Findings.AddAtCorrectedReads | Tasks/DoublyLinkedList.cs:77-85 | with the repair, `ElementAt(j)` reads every position of the new contents, from either end |
| Findings.RemoveSoleElementThrows | Tasks/DoublyLinkedList.cs:94-98 | `Remove` as written, matching the only element, throws a null dereference and leaves `head` null, `tail` on the node and `Length` 1, which breaks the invariant |
| Findings.RemoveSoleElementExample | Tasks/DoublyLinkedList.cs:94-98 | `Remove(7)` on the list built from `[7]` throws and leaves `head` null |
| Findings.RemoveCorrected | Tasks/DoublyLinkedList.cs:87-117 | the repaired `Remove` can throw only a null dereference (or loop forever on a cycle), and on completion either changes nothing or subtracts 1 from `Length` and bumps `version` once |
| Findings.RemoveCorrectedRemovesFirst | Tasks/DoublyLinkedList.cs:87-117 | the repaired `Remove` removes exactly the first matching element at any length, keeps both invariants, and bumps `version` once; with no match it changes nothing |
| Findings.RemoveCorrectedEmpties | Tasks/DoublyLinkedList.cs:94-98 | with the repair, removing the only element leaves a consistent empty list with null `head` and `tail` |
| Findings.ResetLeavesStaleCurrent | Tasks/DoublyLinkedList.cs:200-204 | `Reset` as written, after `index > 0` steps, rewinds `index`, but `Current` still returns `s[index - 1]` where a fresh enumerator's `Current` throws |
| Findings.ResetExample | Tasks/DoublyLinkedList.cs:187-204 | on "ab", one `MoveNext` and then `Reset` leave `Current` reading 'a' |
| Findings.ResetCorrected | Tasks/DoublyLinkedList.cs:200-204 | the repaired `Reset` completes exactly when in step, and then gives exactly a fresh enumerator; otherwise it throws invalid-operation |
| Findings.ResetCorrectedRestarts | Tasks/DoublyLinkedList.cs:200-204 | the repaired `Reset` restores the state of a fresh enumerator, so `Current` throws and a `foreach` yields the contents again; on a changed list it throws invalid-operation |

## Left out

- `Tasks/Node.cs`: a standalone node class that the list never uses. The list's own nested
  `Node` (`Tasks/DoublyLinkedList.cs:252-264`) is `Arena.Node`.
- .NET enumeration plumbing: the non-generic `GetEnumerator`, the explicit `IEnumerator.Current`
  properties and the empty `Dispose` (`Tasks/DoublyLinkedList.cs:154-156, 206-215`). The
  `Tasks.DoNotChange` interfaces are also left out.
- The enumerator constructor's argument-null check for a null list: the only caller passes
  `this`, so it cannot fire.
- Struct copy semantics of `Enumerator`: each call takes the enumerator by value and returns
  the new one. It also takes the list's current state instead of holding a reference to it.
- User-defined `Equals`: elements of `Remove` are `Option<V>` (`None` is null) and are
  compared by structural equality.
- `Length` overflow: `Length` is an unbounded `int`, and the model does not wrap it. The
  source's `Length++` wraps after 2^31 - 1 nodes.
- `Remove`: the scan is given one visit per arena record. On a consistent list it always
  ends within that bound. On a corrupted list whose forward walk cycles, it ends with
  `Diverges`, standing for the source's endless loop. That the walk has indeed revisited a
  node is not proved.
- Failure states are kept exactly as far as the source's assignments went. A node allocated
  just before a throw is not kept in the arena, because no reference reaches it.
- Object identity beyond arena ids, garbage collection and thread safety: the class is
  single-threaded, and the arena stands in for the heap.
- The operations' own contracts hold on any list whose references name nodes, so they
  state only faults, `Length` and `version`. What each one does to the contents holds only
  on a consistent list. That effect is stated by a separate lemma, named on each line below.
- DoublyLinkedList.Add: contents, tail and invariants in `ListProperties.AddAppends`.
- DoublyLinkedList.AddAll: contents in `ListProperties.AddAllAppends` and invariants in `ListProperties.AddAllKeepsValid`.
- DoublyLinkedList.FromSequence: contents and invariants in `ListProperties.FromSequenceBuilds`.
- DoublyLinkedList.NodeAt: the node found in `ListProperties.NodeAtFinds`.
- DoublyLinkedList.ElementAt: the value read in `ListProperties.ElementAtReads`.
- DoublyLinkedList.AddAt: contents and the loss of the prev invariant in `ListProperties.AddAtInserts`.
- DoublyLinkedList.Insert: contents and the prev invariant in `ListProperties.InsertPlaces`.
- DoublyLinkedList.Remove: contents in `ListProperties.RemoveFirstMatch` and `ListProperties.ScanRemoves`.
- DoublyLinkedList.Scan: contents in `ListProperties.ScanRemoves`, the stopping point in `ListProperties.ScanStops`.
- DoublyLinkedList.Unlink: the deletion shape in `ListProperties.UnlinkShape`.
- DoublyLinkedList.RemoveAt: contents and the removed value in `ListProperties.RemoveAtDeletes`.
- Arena.Detach: the deletion shape in `Arena.DetachDeletes`.
- ListEnumerator.Current: the value read after a step in `ListEnumerator.MoveNextAdvances`.
- ListEnumerator.MoveNext: the node reached by a step before the end in `ListEnumerator.MoveNextAdvances`.
- ListEnumerator.Drain: the items yielded in `ListEnumerator.DrainYields`.
- HybridFlowProcessor.Enqueue: contents in `HybridFlowProcessor.EnqueueAppends`.
- HybridFlowProcessor.Push: contents in `HybridFlowProcessor.EnqueueAppends` and `HybridFlowProcessor.PushPop`.
- HybridFlowProcessor.Dequeue: contents and the returned element in `HybridFlowProcessor.DequeueTakesFirst`.
- HybridFlowProcessor.Pop: contents and the returned element in `HybridFlowProcessor.PopTakesLast`.
- Findings.AddAtCorrected: contents and invariants in `Findings.AddAtCorrectedInserts`.
- Findings.RemoveCorrected: contents and invariants in `Findings.RemoveCorrectedRemovesFirst`.

## Findings

| source | as written | input that shows it | evidently intended | confidence | as-written member | corrected member |
|---|---|---|---|---|---|---|
| Tasks/DoublyLinkedList.cs:62 | `AddAt` before an existing node never sets the new node's `PreviousNode`; a backward walk stops at the new node, so `ElementAt` dereferences null and `RemoveAt` of the new node cuts off the rest of the list | "abcdef", `AddAt(5, 'x')`, then `ElementAt(4)` throws; `[1, 2, 3]`, `AddAt(1, 9)`, then `RemoveAt(1)` returns 9 but leaves the contents `[1, 9]` with `Length` 3 | the new node's `PreviousNode` is the old predecessor, so that both walks agree and `RemoveAt(i)` undoes `AddAt(i, e)` | not executed | Findings.AddAtElementAt | Findings.AddAtCorrectedRoundTrip |
| Tasks/DoublyLinkedList.cs:96-97 | `Remove` of the only element sets `head` to null and then dereferences it; `tail` is never updated | a list holding only 7, then `Remove(7)` | removing the sole element leaves the empty list, with null `head` and `tail` | not executed | Findings.RemoveSoleElementThrows | Findings.RemoveCorrectedEmpties |
| Tasks/DoublyLinkedList.cs:200-204 | `Reset` rewinds `index` but leaves `current` set | "ab", `MoveNext()`, `Reset()`, then `Current` returns 'a' instead of throwing | `Reset` also clears `current`, returning to the state of a fresh enumerator | not executed | Findings.ResetLeavesStaleCurrent | Findings.ResetCorrectedRestarts |
