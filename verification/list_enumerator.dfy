/**
 * The list's fail-fast `Enumerator`. The struct holds a reference to its list;
 * here each call is given the list's current state instead, so that a
 * mutation between two calls is visible to the version check.
 */
module ListEnumerator {
  import opened Wrappers
  import opened Arena
  import opened DoublyLinkedList

  /** The captured `version`, the `current` node and the number of `MoveNext` steps taken. */
  datatype Enumerator = Enumerator(version: int, current: Ref, index: int)

  /** `GetEnumerator()`: captures the list's `version`; no current node yet. */
  function GetEnumerator<T>(l: List<T>): (en: Enumerator)
    ensures InSync(en, l) && Points(l.nodes, en.current)
    ensures Current(en, l) == Failure(InvalidOperation)
  {
    Enumerator(l.version, None, 0)
  }

  /** `CheckVersion()` passes: the list has not been structurally changed since capture. */
  predicate InSync<T>(en: Enumerator, l: List<T>) {
    en.version == l.version
  }

  /** The `Current` property. */
  function Current<T>(en: Enumerator, l: List<T>): (res: Result<T, Fault>)
    requires Points(l.nodes, en.current)
    ensures res.Failure? ==> res.error == InvalidOperation
    ensures res.Success? <==> InSync(en, l) && en.current.Some?
  {
    if !InSync(en, l) then Failure(InvalidOperation)
    else if en.current.None? then Failure(InvalidOperation)  // no step taken yet
    else Success(l.nodes[en.current.value].value)
  }

  /** `MoveNext()`: the first step takes `head`, later steps follow `next`, and it stops after `Length` steps. */
  function MoveNext<T>(en: Enumerator, l: List<T>): (res: Outcome<Enumerator, bool>)
    requires Anchored(l) && Points(l.nodes, en.current)
    ensures Points(l.nodes, res.state.current)
    ensures res.Done? && res.value ==> en.index != l.length && res.state.index == en.index + 1
    ensures res.Threw? && res.fault == InvalidOperation <==> !InSync(en, l)
    ensures InSync(en, l) && en.index == l.length ==> res == Done(en.(current := None), false)
    ensures InSync(en, l) && en.index == 0 < l.length ==> res == Done(en.(current := l.head, index := 1), true)
  {
    if !InSync(en, l) then Threw(InvalidOperation, en)
    else if en.index == l.length then Done(en.(current := None), false)
    else if en.index == 0 then Done(en.(current := l.head, index := 1), true)
    else if en.current.None? then Threw(NullReference, en.(index := en.index + 1))
    else Done(en.(current := l.nodes[en.current.value].next, index := en.index + 1), true)
  }

  /** `Reset()` as written: rewinds `index` but leaves `current` as it was. */
  function Reset<T>(en: Enumerator, l: List<T>): (res: Outcome<Enumerator, ()>)
    ensures res.Done? <==> InSync(en, l)
    ensures res.Threw? ==> res == Threw(InvalidOperation, en)
    ensures res.Done? ==> res.state.index == 0 && res.state.current == en.current && InSync(res.state, l)
  {
    Rewind(en, l, false)
  }

  /** The body of `Reset`; with `clearCurrent` true it also sets `current` to null. */
  function Rewind<T>(en: Enumerator, l: List<T>, clearCurrent: bool): (res: Outcome<Enumerator, ()>)
    ensures res.Done? <==> InSync(en, l)
    ensures res.Threw? ==> res == Threw(InvalidOperation, en)
    ensures res.Done? ==> res.state.index == 0 && InSync(res.state, l)
    ensures res.Done? && clearCurrent ==> res.state == GetEnumerator(l)
  {
    if !InSync(en, l) then Threw(InvalidOperation, en)
    else if clearCurrent then Done(en.(index := 0, current := None), ())
    else Done(en.(index := 0), ())
  }

  /**
   * A `foreach` over the list: `MoveNext` until it answers false, reading
   * `Current` after each successful step; the values read, or the first fault.
   */
  function Drain<T>(en: Enumerator, l: List<T>): (res: Result<seq<T>, Fault>)
    requires Anchored(l) && Points(l.nodes, en.current) && 0 <= en.index <= l.length
    ensures res.Success? ==> |res.value| <= l.length - en.index
    ensures res.Failure? ==> res.error == InvalidOperation || res.error == NullReference
    decreases l.length - en.index
  {
    match MoveNext(en, l)
    case Threw(f, _) => Failure(f)
    case Done(en', more) =>
      if !more then Success([])
      else match Current(en', l)
        case Failure(f) => Failure(f)
        case Success(x) =>
          match Drain(en', l)
          case Failure(f) => Failure(f)
          case Success(rest) => Success([x] + rest)
  }

  // ---------------------------------------------------------------------------
  // Properties

  /**
   * The enumerator is in step with an unchanged list whose forward chain is
   * consistent (the prev links are never read): after `index` steps its
   * current node is the one at position `index - 1`.
   */
  predicate Tracks<T>(en: Enumerator, l: List<T>) {
    && ForwardValid(l)
    && InSync(en, l)
    && Points(l.nodes, en.current)
    && 0 <= en.index <= l.length
    && (0 < en.index ==> en.current == Some(Spine(l).value[en.index - 1]))
  }

  /** A step before the end moves to the next element and `Current` then reads it. */
  lemma MoveNextAdvances<T>(en: Enumerator, l: List<T>)
    requires Tracks(en, l) && en.index < l.length
    ensures var res := MoveNext(en, l);
      && res.Done? && res.value
      && Tracks(res.state, l)
      && res.state.index == en.index + 1
      && Current(res.state, l) == Success(Contents(l)[en.index])
  {
    var ids := Spine(l).value;
    if en.index > 0 {
      assert l.nodes[ids[en.index - 1]].next == After(ids, en.index - 1);
    }
  }

  /** The step after the last element answers false, and `Current` then throws. */
  lemma MoveNextEnds<T>(en: Enumerator, l: List<T>)
    requires Tracks(en, l) && en.index == l.length
    ensures var res := MoveNext(en, l);
      && res == Done(en.(current := None), false)
      && Current(res.state, l) == Failure(InvalidOperation)
  {
  }

  /** On an unchanged list with a consistent forward chain a `foreach` from step `index` yields the rest of the contents. */
  lemma {:induction false} DrainYields<T>(en: Enumerator, l: List<T>)
    requires Tracks(en, l)
    ensures Drain(en, l) == Success(Contents(l)[en.index..])
    decreases l.length - en.index
  {
    var s := Contents(l);
    assert |s| == l.length;
    if en.index < l.length {
      MoveNextAdvances(en, l);
      var en' := MoveNext(en, l).state;
      DrainYields(en', l);
      SuffixStep(s, en.index);
    } else {
      MoveNextEnds(en, l);
      assert s[en.index..] == [];
    }
  }

  /** A suffix is its first element followed by the next suffix. */
  lemma SuffixStep<T>(s: seq<T>, i: nat)
    requires i < |s|
    ensures s[i..] == [s[i]] + s[i + 1..]
  {
  }

  /**
   * A fresh enumerator over an unchanged list with a consistent forward chain
   * yields exactly its contents, head to tail, and `Current` throws before
   * the first step.
   */
  lemma EnumerationYieldsContents<T>(l: List<T>)
    requires ForwardValid(l)
    ensures Drain(GetEnumerator(l), l) == Success(Contents(l))
    ensures Current(GetEnumerator(l), l) == Failure(InvalidOperation)
  {
    DrainYields(GetEnumerator(l), l);
  }

  /** Once the list's `version` differs from the captured one, every call throws invalid-operation. */
  lemma StaleEnumeratorThrows<T>(en: Enumerator, l: List<T>)
    requires Anchored(l) && Points(l.nodes, en.current) && !InSync(en, l)
    ensures MoveNext(en, l) == Threw(InvalidOperation, en)
    ensures Current(en, l) == Failure(InvalidOperation)
    ensures Reset(en, l) == Threw(InvalidOperation, en)
  {
  }

  /** An `Add` between two steps of an iteration makes the next step throw invalid-operation. */
  lemma AddDuringIterationThrows<T>(en: Enumerator, l: List<T>, e: T)
    requires Anchored(l) && Points(l.nodes, en.current) && InSync(en, l)
    ensures MoveNext(en, Add(l, e)) == Threw(InvalidOperation, en)
    ensures Current(en, Add(l, e)) == Failure(InvalidOperation)
  {
  }
}
