/** The zone resolution engine: the offset in force at an instant, and the
    classification of a local timestamp as definite, in a gap or in an
    overlap, both computed from a zone's transition list. */
module Resolution {
  import opened ZoneErrors
  import opened Offsets
  import opened Discontinuities

  /** What a zone resolves with: one offset for ever, or an initial offset
      followed by transitions supplied by the rule provider. */
  datatype ZoneRules = Fixed(offset: Offset) | Ruled(initial: Offset, transitions: seq<Transition>)

  /** The well-formedness of a transition list in which `current` is the
      offset in force before the first transition: each transition starts
      from the offset the previous one ended with and changes it, and
      instants strictly increase. In addition, as a restriction of this
      model, each transition's local window ends no later than the next
      one's begins, so that no local timestamp lies in two windows. */
  predicate Chained(ts: seq<Transition>, current: Offset)
    decreases |ts|
  {
    |ts| > 0 ==>
      && ts[0].before == current
      && ts[0].before != ts[0].after
      && (|ts| > 1 ==> ts[0].instant < ts[1].instant && ts[0].WindowEnd() <= ts[1].WindowStart())
      && Chained(ts[1..], ts[0].after)
  }

  /** Fixed rules are always well formed; ruled ones when chained from
      their initial offset. */
  predicate WellFormed(rules: ZoneRules) {
    rules.Ruled? ==> Chained(rules.transitions, rules.initial)
  }

  // ---------------------------------------------------------------------
  // Offset at an instant.
  // ---------------------------------------------------------------------

  /** The `after` offset of the latest transition at or before `instant`,
      or `current` when every transition is later. */
  function OffsetFrom(ts: seq<Transition>, current: Offset, instant: int): (o: Offset)
    ensures |ts| == 0 || instant < ts[0].instant ==> o == current
    ensures |ts| > 0 && ts[0].instant <= instant ==>
              exists i :: 0 <= i < |ts| && ts[i].instant <= instant && o == ts[i].after
    decreases |ts|
  {
    if |ts| == 0 || instant < ts[0].instant then current
    else OffsetFrom(ts[1..], ts[0].after, instant)
  }

  /** The offset of a zone at an instant: a fixed zone's own offset, or
      the initial offset until the first transition and afterwards the
      `after` of a transition that has already happened. */
  function OffsetAt(rules: ZoneRules, instant: int): (o: Offset)
    ensures rules.Fixed? ==> o == rules.offset
    ensures rules.Ruled? ==>
              || o == rules.initial
              || exists i :: 0 <= i < |rules.transitions| && rules.transitions[i].instant <= instant
                                                         && o == rules.transitions[i].after
  {
    match rules
    case Fixed(o) => o
    case Ruled(initial, ts) => OffsetFrom(ts, initial, instant)
  }

  /** From the instant of transition `i` until that of the next one, the
      offset is transition `i`'s `after`. */
  lemma {:induction false} OffsetAtLatest(ts: seq<Transition>, current: Offset, instant: int, i: nat)
    requires Chained(ts, current)
    requires i < |ts| && ts[i].instant <= instant
    requires i + 1 == |ts| || instant < ts[i + 1].instant
    ensures OffsetFrom(ts, current, instant) == ts[i].after
    decreases i
  {
    if i > 0 {
      assert ts[0].instant <= ts[i].instant by { InstantsIncrease(ts, current, i); }
      OffsetAtLatest(ts[1..], ts[0].after, instant, i - 1);
    }
  }

  lemma {:induction false} InstantsIncrease(ts: seq<Transition>, current: Offset, i: nat)
    requires Chained(ts, current) && i < |ts|
    ensures ts[0].instant <= ts[i].instant
    decreases i
  {
    if i > 0 {
      InstantsIncrease(ts[1..], ts[0].after, i - 1);
    }
  }

  /** The offset switches exactly at a transition's instant: one nanosecond
      earlier it is the transition's `before`, at the instant its `after`. */
  lemma {:induction false} OffsetSwitchesAtTransition(ts: seq<Transition>, current: Offset, i: nat)
    requires Chained(ts, current) && i < |ts|
    ensures OffsetFrom(ts, current, ts[i].instant - 1) == ts[i].before
    ensures OffsetFrom(ts, current, ts[i].instant) == ts[i].after
    decreases i
  {
    OffsetAtLatestAt(ts, current, i);
    if i == 0 {
      assert OffsetFrom(ts, current, ts[0].instant - 1) == current;
    } else {
      OffsetSwitchesAtTransition(ts[1..], ts[0].after, i - 1);
      assert ts[0].instant <= ts[i].instant - 1 by {
        InstantsIncrease(ts, current, i - 1);
        ChainedAt(ts, current, i - 1);
      }
    }
  }

  /** At its own instant a transition's `after` offset is in force. */
  lemma OffsetAtLatestAt(ts: seq<Transition>, current: Offset, i: nat)
    requires Chained(ts, current) && i < |ts|
    ensures OffsetFrom(ts, current, ts[i].instant) == ts[i].after
  {
    if i + 1 < |ts| {
      ChainedAt(ts, current, i);
    }
    OffsetAtLatest(ts, current, ts[i].instant, i);
  }

  /** The pairwise guarantees of a chained list, at any position. */
  lemma {:induction false} ChainedAt(ts: seq<Transition>, current: Offset, i: nat)
    requires Chained(ts, current) && i < |ts|
    ensures i == 0 ==> ts[i].before == current
    ensures i > 0 ==> ts[i].before == ts[i - 1].after
    ensures ts[i].before != ts[i].after
    ensures i + 1 < |ts| ==> ts[i].instant < ts[i + 1].instant && ts[i].WindowEnd() <= ts[i + 1].WindowStart()
    decreases i
  {
    if i > 0 {
      ChainedAt(ts[1..], ts[0].after, i - 1);
    }
  }

  /** From the first transition on, an instant's local reading is at least
      the first transition's instant read with its `after` offset. */
  lemma {:induction false} LocalAfterFirstTransition(ts: seq<Transition>, current: Offset, instant: int)
    requires Chained(ts, current) && |ts| > 0 && ts[0].instant <= instant
    ensures ToLocal(instant, OffsetFrom(ts, current, instant)) >= ToLocal(ts[0].instant, ts[0].after)
    decreases |ts|
  {
    var rest := ts[1..];
    if |rest| > 0 && rest[0].instant <= instant {
      LocalAfterFirstTransition(rest, ts[0].after, instant);
    }
  }

  // ---------------------------------------------------------------------
  // Offset information for a local timestamp.
  // ---------------------------------------------------------------------

  /** Scans the transitions in order: a local timestamp before a window is
      resolved with that transition's `before`, one inside it yields the
      discontinuity, one at or after its end moves on to the next. */
  function InfoFrom(ts: seq<Transition>, current: Offset, local: int): (r: OffsetInfo)
    ensures r.Ambiguous? ==>
              exists i :: 0 <= i < |ts| && r.discontinuity == Discontinuity(ts[i]) && ts[i].InWindow(local)
    ensures r.Definite? ==>
              r.offset == current || exists i :: 0 <= i < |ts| && (r.offset == ts[i].before || r.offset == ts[i].after)
    decreases |ts|
  {
    if |ts| == 0 then Definite(current)
    else if local < ts[0].WindowStart() then Definite(ts[0].before)
    else if local < ts[0].WindowEnd() then Ambiguous(Discontinuity(ts[0]))
    else InfoFrom(ts[1..], ts[0].after, local)
  }

  /** The offset information of a zone for a local timestamp: a fixed zone
      is always definite; a ruled zone is ambiguous only inside the window
      of one of its transitions, and reports that transition. */
  function InfoAt(rules: ZoneRules, local: int): (r: OffsetInfo)
    ensures rules.Fixed? ==> r == Definite(rules.offset)
    ensures r.Ambiguous? ==>
              && rules.Ruled?
              && exists i :: 0 <= i < |rules.transitions| && r.discontinuity == Discontinuity(rules.transitions[i])
                                                          && rules.transitions[i].InWindow(local)
  {
    match rules
    case Fixed(o) => Definite(o)
    case Ruled(initial, ts) => InfoFrom(ts, initial, local)
  }

  /** The reference meaning of "offset `o` is valid for local timestamp
      `local`": reading the local timestamp with `o` gives an instant at
      which the zone's offset is indeed `o`. */
  predicate OccursWith(rules: ZoneRules, local: int, o: Offset) {
    OffsetAt(rules, local - o * NanosPerSecond) == o
  }

  /** The offset information agrees with the instant view: it calls an
      offset valid exactly when that offset really maps the local timestamp
      to an instant at which the zone has that offset. */
  lemma {:induction false} InfoFromValidity(ts: seq<Transition>, current: Offset, local: int, o: Offset)
    requires Chained(ts, current)
    ensures InfoFrom(ts, current, local).IsValidOffset(o)
        <==> OffsetFrom(ts, current, local - o * NanosPerSecond) == o
    decreases |ts|
  {
    var t := local - o * NanosPerSecond;
    if |ts| > 0 {
      var tr, rest := ts[0], ts[1..];
      if local < tr.WindowStart() {
        if t >= tr.instant {
          LocalAfterFirstTransition(ts, current, t);
        }
      } else if local < tr.WindowEnd() {
        if t >= tr.instant && |rest| > 0 && rest[0].instant <= t {
          LocalAfterFirstTransition(rest, tr.after, t);
        }
      } else {
        InfoFromValidity(rest, tr.after, local, o);
      }
    }
  }

  /** The same agreement for a zone's rules: a definite result is the only
      offset at which the local timestamp occurs, a gap admits none and an
      overlap admits exactly its two sides. */
  lemma InfoAtValidity(rules: ZoneRules, local: int, o: Offset)
    requires WellFormed(rules)
    ensures InfoAt(rules, local).IsValidOffset(o) <==> OccursWith(rules, local, o)
  {
    if rules.Ruled? {
      InfoFromValidity(rules.transitions, rules.initial, local, o);
    }
  }

  /** Windows of later transitions start after the first one ends. */
  lemma {:induction false} LaterWindowsStartLater(ts: seq<Transition>, current: Offset, i: nat)
    requires Chained(ts, current) && 0 < i < |ts|
    ensures ts[0].WindowEnd() <= ts[i].WindowStart()
    decreases i
  {
    if i > 1 {
      LaterWindowsStartLater(ts[1..], ts[0].after, i - 1);
    }
  }

  /** A local timestamp is ambiguous exactly when it lies in the window of
      some transition, and then the discontinuity is that transition's. */
  lemma {:induction false} InfoFromWindows(ts: seq<Transition>, current: Offset, local: int)
    requires Chained(ts, current)
    ensures InfoFrom(ts, current, local).Ambiguous?
        <==> exists i :: 0 <= i < |ts| && ts[i].InWindow(local)
    ensures InfoFrom(ts, current, local).Ambiguous? ==>
              var tr := InfoFrom(ts, current, local).discontinuity.transition;
              tr in ts && tr.InWindow(local)
    decreases |ts|
  {
    if |ts| > 0 {
      var tr, rest := ts[0], ts[1..];
      if local < tr.WindowStart() {
        forall i | 0 < i < |ts| ensures !ts[i].InWindow(local) {
          LaterWindowsStartLater(ts, current, i);
        }
      } else if local < tr.WindowEnd() {
        assert ts[0].InWindow(local);
      } else {
        InfoFromWindows(rest, tr.after, local);
        if exists i :: 0 <= i < |ts| && ts[i].InWindow(local) {
          var i :| 0 <= i < |ts| && ts[i].InWindow(local);
          assert rest[i - 1].InWindow(local);
        }
        if exists j :: 0 <= j < |rest| && rest[j].InWindow(local) {
          var j :| 0 <= j < |rest| && rest[j].InWindow(local);
          assert ts[j + 1].InWindow(local);
        }
      }
    }
  }

  /** Between the window of transition `i - 1` and that of transition `i`
      the result is definite, with the offset in force between the two
      transitions. */
  lemma {:induction false} InfoFromBetweenWindows(ts: seq<Transition>, current: Offset, local: int, i: nat)
    requires Chained(ts, current) && i <= |ts|
    requires i > 0 ==> ts[i - 1].WindowEnd() <= local
    requires i < |ts| ==> local < ts[i].WindowStart()
    ensures InfoFrom(ts, current, local) == Definite(if i == 0 then current else ts[i - 1].after)
    decreases i
  {
    if i > 0 {
      if i > 1 {
        LaterWindowsStartLater(ts, current, i - 1);
      }
      InfoFromBetweenWindows(ts[1..], ts[0].after, local, i - 1);
    } else if |ts| > 0 {
      ChainedAt(ts, current, 0);
    }
  }

  /** Inside the window of transition `i` the result is that transition's
      discontinuity. */
  lemma {:induction false} InfoFromInWindow(ts: seq<Transition>, current: Offset, local: int, i: nat)
    requires Chained(ts, current) && i < |ts| && ts[i].InWindow(local)
    ensures InfoFrom(ts, current, local) == Ambiguous(Discontinuity(ts[i]))
    decreases i
  {
    if i > 0 {
      LaterWindowsStartLater(ts, current, i);
      InfoFromInWindow(ts[1..], ts[0].after, local, i - 1);
    }
  }

  /** Outside every window the result is definite, and its offset is the
      one offset at which the local timestamp occurs. */
  lemma UnambiguousOutsideWindows(rules: ZoneRules, local: int, o: Offset)
    requires WellFormed(rules)
    requires rules.Ruled? ==> forall i :: 0 <= i < |rules.transitions| ==> !rules.transitions[i].InWindow(local)
    ensures InfoAt(rules, local).Definite?
    ensures OccursWith(rules, local, o) <==> o == InfoAt(rules, local).offset
  {
    if rules.Ruled? {
      InfoFromWindows(rules.transitions, rules.initial, local);
    }
    InfoAtValidity(rules, local, o);
  }

  /** A definite answer, as the test suite's `checkOffset` inspects it:
      no discontinuity, the offset is present and is its own estimate, the
      offset is the only valid one, and it is the only offset at which the
      local timestamp really occurs. */
  lemma DefiniteInfo(rules: ZoneRules, local: int)
    requires WellFormed(rules) && InfoAt(rules, local).Definite?
    ensures var info := InfoAt(rules, local);
      && !info.IsDiscontinuity() && info.GetDiscontinuity() == None
      && info.GetOffset() == Some(info.offset) && info.EstimatedOffset() == info.offset
      && info.IsValidOffset(info.offset)
    ensures forall p: Offset :: OccursWith(rules, local, p) <==> p == InfoAt(rules, local).offset
  {
    forall p: Offset
      ensures OccursWith(rules, local, p) <==> p == InfoAt(rules, local).offset
    {
      InfoAtValidity(rules, local, p);
    }
  }

  /** An ambiguous answer: no offset, the discontinuity is present, the
      estimate is the offset after the transition, and the discontinuity is
      exactly one of a gap and an overlap. In a gap the local timestamp
      occurs with no offset; in an overlap it occurs with exactly the
      offsets before and after the transition. */
  lemma AmbiguousInfo(rules: ZoneRules, local: int)
    requires WellFormed(rules) && InfoAt(rules, local).Ambiguous?
    ensures var info := InfoAt(rules, local);
      var d := info.discontinuity;
      && info.IsDiscontinuity() && info.GetOffset() == None && info.GetDiscontinuity() == Some(d)
      && info.EstimatedOffset() == d.OffsetAfter()
      && d.IsGap() != d.IsOverlap()
    ensures var d := InfoAt(rules, local).discontinuity;
      d.IsGap() ==> forall p: Offset :: !OccursWith(rules, local, p)
    ensures var d := InfoAt(rules, local).discontinuity;
      d.IsOverlap() ==> forall p: Offset :: OccursWith(rules, local, p) <==> p == d.OffsetBefore() || p == d.OffsetAfter()
  {
    var d := InfoAt(rules, local).discontinuity;
    var i :| 0 <= i < |rules.transitions| && d == Discontinuity(rules.transitions[i]);
    ChainedAt(rules.transitions, rules.initial, i);
    forall p: Offset
      ensures OccursWith(rules, local, p) <==> d.IsValidOffset(p)
    {
      InfoAtValidity(rules, local, p);
    }
  }
}
