/** Transitions, the discontinuities they cause on the local time-line, and
    the result of resolving a local timestamp (OffsetInfo).

    Time points are whole nanoseconds: an instant counts them on the UTC
    time-line, a local timestamp counts them on the wall-clock time-line,
    and an offset of `o` seconds maps instant `t` to local `t + o * 10^9`. */
module Discontinuities {
  import opened ZoneErrors
  import opened Offsets

  const NanosPerSecond := 1_000_000_000

  /** The local reading of `instant` under offset `o`. */
  function ToLocal(instant: int, o: Offset): int {
    instant + o * NanosPerSecond
  }

  /** An instant at which a ruled zone's offset changes from `before` to
      `after`. */
  datatype Transition = Transition(instant: int, before: Offset, after: Offset) {

    /** The half-open local window the transition makes special: for a
        gap (after > before) it is [T + before, T + after), the readings
        that never occur; for an overlap (after < before) it is
        [T + after, T + before), the readings that occur twice. */
    function WindowStart(): int {
      if after > before then ToLocal(instant, before) else ToLocal(instant, after)
    }

    function WindowEnd(): (e: int)
      ensures WindowStart() <= e
    {
      if after > before then ToLocal(instant, after) else ToLocal(instant, before)
    }

    predicate InWindow(local: int) {
      WindowStart() <= local < WindowEnd()
    }
  }

  /** The ambiguity a transition causes around a local timestamp. */
  datatype Discontinuity = Discontinuity(transition: Transition) {

    predicate IsGap() {
      transition.after > transition.before
    }

    predicate IsOverlap() {
      transition.after < transition.before
    }

    function OffsetBefore(): Offset {
      transition.before
    }

    function OffsetAfter(): Offset {
      transition.after
    }

    function TransitionInstant(): int {
      transition.instant
    }

    /** No offset is valid in a gap; in an overlap exactly the two offsets
        on either side of the transition are. */
    predicate IsValidOffset(o: Offset) {
      IsOverlap() && (o == transition.before || o == transition.after)
    }

    /** `Discontinuity[Gap from <before> to <after>]`, or the same with
        `Overlap`, the offsets in their canonical text form. */
    function ToString(): string {
      Heading(IsGap()) + FormatOffset(transition.before) + " to " + FormatOffset(transition.after) + "]"
    }
  }

  /** The words before a discontinuity's first offset. */
  function Heading(gap: bool): (h: string)
    ensures |h| > 14 && h[14] == if gap then 'G' else 'O'
  {
    "Discontinuity[" + (if gap then "Gap" else "Overlap") + " from "
  }

  /** The result of resolving a local timestamp: a single definite offset,
      or a discontinuity and no offset. */
  datatype OffsetInfo = Definite(offset: Offset) | Ambiguous(discontinuity: Discontinuity) {

    predicate IsDiscontinuity() {
      Ambiguous?
    }

    /** The definite offset; None stands for Java's null. */
    function GetOffset(): Option<Offset> {
      if Definite? then Some(offset) else None
    }

    function GetDiscontinuity(): Option<Discontinuity> {
      if Ambiguous? then Some(discontinuity) else None
    }

    /** The definite offset, or inside a discontinuity the offset after it. */
    function EstimatedOffset(): Offset {
      if Definite? then offset else discontinuity.transition.after
    }

    predicate IsValidOffset(o: Offset) {
      if Definite? then o == offset else discontinuity.IsValidOffset(o)
    }
  }

  /** In a text without spaces followed by " to ", the first space is the
      one after the text. */
  lemma FirstSpace(a: string, b: string)
    requires ' ' !in a
    ensures (a + " to " + b)[|a|] == ' '
    ensures forall i | 0 <= i < |a| :: (a + " to " + b)[i] != ' '
  {
    forall i | 0 <= i < |a|
      ensures (a + " to " + b)[i] != ' '
    {
      assert (a + " to " + b)[i] == a[i];
    }
  }

  /** Two texts joined by " to " split back into the same parts when
      neither first part contains a space. */
  lemma SplitAtTo(a: string, b: string, a2: string, b2: string)
    requires ' ' !in a && ' ' !in a2
    requires a + " to " + b == a2 + " to " + b2
    ensures a == a2 && b == b2
  {
    var s := a + " to " + b;
    FirstSpace(a, b);
    FirstSpace(a2, b2);
    assert |a| == |a2|;
    assert a == s[..|a|] == a2;
    assert b == s[|a| + 4..] == b2;
  }

  /** A heading and a closing bracket around two texts: the same frame
      around the same text. */
  lemma FramedText(g1: bool, g2: bool, r1: string, r2: string)
    requires Heading(g1) + r1 + "]" == Heading(g2) + r2 + "]"
    ensures g1 == g2 && r1 == r2
  {
    var s := Heading(g1) + r1 + "]";
    assert s[14] == Heading(g1)[14] && s[14] == Heading(g2)[14];
    assert r1 == s[|Heading(g1)|..|s| - 1] == r2;
  }

  lemma ToStringParts(d: Discontinuity)
    ensures d.ToString() == Heading(d.IsGap()) + (FormatOffset(d.transition.before) + " to " + FormatOffset(d.transition.after)) + "]"
  {
  }

  /** The text form of a discontinuity determines its kind and both of its
      offsets. */
  lemma ToStringDetermines(d1: Discontinuity, d2: Discontinuity)
    requires d1.ToString() == d2.ToString()
    ensures d1.IsGap() == d2.IsGap()
    ensures d1.OffsetBefore() == d2.OffsetBefore() && d1.OffsetAfter() == d2.OffsetAfter()
  {
    var b1, a1 := FormatOffset(d1.transition.before), FormatOffset(d1.transition.after);
    var b2, a2 := FormatOffset(d2.transition.before), FormatOffset(d2.transition.after);
    ToStringParts(d1);
    ToStringParts(d2);
    FramedText(d1.IsGap(), d2.IsGap(), b1 + " to " + a1, b2 + " to " + a2);
    SplitAtTo(b1, a1, b2, a2);
    FormatInjective(d1.transition.before, d2.transition.before);
    FormatInjective(d1.transition.after, d2.transition.after);
  }
}
