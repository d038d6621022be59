/** The 2008 transitions of Europe/London, Europe/Paris and America/New_York
    as the rule provider would supply them, and the concrete assertions of
    the zone test suite stated over them. Instants and local timestamps are
    nanoseconds since 1970-01-01T00:00 on their time-line. */
module Fixtures {
  import opened ZoneErrors
  import opened Offsets
  import opened Discontinuities
  import opened Resolution
  import opened Registry

  const Hour := 3600

  /** Seconds since the epoch of midnight, 1 January 2008. */
  const Start2008 := 1_199_145_600

  /** The time-line point `seconds` plus `nanos` into 2008 (local or UTC). */
  function In2008(seconds: int, nanos: int): int {
    (Start2008 + seconds) * NanosPerSecond + nanos
  }

  /** Seconds into 2008 of day `dayOfYear` (0 is 1 January) at `hour`:`minute`. */
  function At(dayOfYear: nat, hour: nat, minute: nat): int {
    dayOfYear * 86400 + hour * Hour + minute * 60
  }

  /** The last nanosecond before `hour`:00 on day `dayOfYear`. */
  function JustBefore(dayOfYear: nat, hour: nat): int
    requires hour > 0
  {
    In2008(At(dayOfYear, hour - 1, 59) + 59, 999_999_999)
  }

  // Days of the year 2008 (a leap year) used below.
  const Mar9 := 68
  const Mar30 := 89
  const Oct26 := 299
  const Nov2 := 306

  /** 01:00Z on 30 March and on 26 October: the European changes. */
  const EuSpring := In2008(At(Mar30, 1, 0), 0)
  const EuAutumn := In2008(At(Oct26, 1, 0), 0)
  /** 07:00Z on 9 March and 06:00Z on 2 November: the New York changes. */
  const UsSpring := In2008(At(Mar9, 7, 0), 0)
  const UsAutumn := In2008(At(Nov2, 6, 0), 0)

  /** Europe/London: GMT, and British Summer Time between the changes. */
  const London := Ruled(0, [Transition(EuSpring, 0, Hour), Transition(EuAutumn, Hour, 0)])

  /** Europe/Paris: +01:00, and +02:00 between the same changes. */
  const Paris := Ruled(Hour, [Transition(EuSpring, Hour, 2 * Hour), Transition(EuAutumn, 2 * Hour, Hour)])

  /** America/New_York: -05:00, and -04:00 between its changes. */
  const NewYork := Ruled(-5 * Hour, [Transition(UsSpring, -5 * Hour, -4 * Hour), Transition(UsAutumn, -4 * Hour, -5 * Hour)])

  /** In a zone with two changes a year, the offset at an instant is the
      one in force in the season the instant falls in. */
  lemma SeasonalOffset(rules: ZoneRules, instant: int)
    requires WellFormed(rules) && rules.Ruled? && |rules.transitions| == 2
    ensures var ts := rules.transitions;
      OffsetAt(rules, instant)
        == if instant < ts[0].instant then rules.initial
           else if instant < ts[1].instant then ts[0].after
           else ts[1].after
  {
    var ts := rules.transitions;
    if ts[0].instant <= instant {
      if instant < ts[1].instant {
        OffsetAtLatest(ts, rules.initial, instant, 0);
      } else {
        OffsetAtLatest(ts, rules.initial, instant, 1);
      }
    }
  }

  /** In a zone with two changes a year, a local time outside both windows
      resolves definitely to the offset of its season. */
  lemma SeasonalInfo(rules: ZoneRules, local: int)
    requires WellFormed(rules) && rules.Ruled? && |rules.transitions| == 2
    requires !rules.transitions[0].InWindow(local) && !rules.transitions[1].InWindow(local)
    ensures var ts := rules.transitions;
      InfoAt(rules, local)
        == Definite(if local < ts[0].WindowStart() then rules.initial
                    else if local < ts[1].WindowStart() then ts[0].after
                    else ts[1].after)
  {
    var ts := rules.transitions;
    ChainedAt(ts, rules.initial, 0);
    if local < ts[0].WindowStart() {
      InfoFromBetweenWindows(ts, rules.initial, local, 0);
    } else if local < ts[1].WindowStart() {
      InfoFromBetweenWindows(ts, rules.initial, local, 1);
    } else {
      InfoFromBetweenWindows(ts, rules.initial, local, 2);
    }
  }

  /** Day of the year of the first of each month of 2008. */
  const MonthStarts: seq<nat> := [0, 31, 60, 91, 121, 152, 182, 213, 244, 274, 305, 335]

  /** London at midnight on the first of each month, read both as a UTC
      instant and as a local time: summer time from April to October. */
  lemma LondonMonthly()
    ensures forall m | 0 <= m < 12 ::
      OffsetAt(London, In2008(At(MonthStarts[m], 0, 0), 0)) == if 3 <= m < 10 then Hour else 0
    ensures forall m | 0 <= m < 12 ::
      InfoAt(London, In2008(At(MonthStarts[m], 0, 0), 0)) == Definite(if 3 <= m < 10 then Hour else 0)
  {
    forall m | 0 <= m < 12
      ensures OffsetAt(London, In2008(At(MonthStarts[m], 0, 0), 0)) == if 3 <= m < 10 then Hour else 0
      ensures InfoAt(London, In2008(At(MonthStarts[m], 0, 0), 0)) == Definite(if 3 <= m < 10 then Hour else 0)
    {
      SeasonalOffset(London, In2008(At(MonthStarts[m], 0, 0), 0));
      SeasonalInfo(London, In2008(At(MonthStarts[m], 0, 0), 0));
    }
  }

  /** London at midnight on each day from 24 to 31 March and from 24 to 31
      October. */
  lemma LondonDaily()
    ensures forall d | Mar30 - 6 <= d <= Mar30 + 1 ::
      && OffsetAt(London, In2008(At(d, 0, 0), 0)) == (if d <= Mar30 then 0 else Hour)
      && InfoAt(London, In2008(At(d, 0, 0), 0)) == Definite(if d <= Mar30 then 0 else Hour)
    ensures forall d | Oct26 - 2 <= d <= Oct26 + 5 ::
      && OffsetAt(London, In2008(At(d, 0, 0), 0)) == (if d <= Oct26 then Hour else 0)
      && InfoAt(London, In2008(At(d, 0, 0), 0)) == Definite(if d <= Oct26 then Hour else 0)
  {
    forall d: nat | Mar30 - 6 <= d <= Mar30 + 1 || Oct26 - 2 <= d <= Oct26 + 5
      ensures OffsetAt(London, In2008(At(d, 0, 0), 0)) == (if d <= Mar30 || Oct26 < d then 0 else Hour)
      ensures InfoAt(London, In2008(At(d, 0, 0), 0)) == Definite(if d <= Mar30 || Oct26 < d then 0 else Hour)
    {
      SeasonalOffset(London, In2008(At(d, 0, 0), 0));
      SeasonalInfo(London, In2008(At(d, 0, 0), 0));
    }
  }

  /** Paris at midnight UTC and at local midnight on each day from 24 to
      31 March and from 24 to 31 October. */
  lemma ParisDaily()
    ensures forall d | Mar30 - 6 <= d <= Mar30 + 1 ::
      && OffsetAt(Paris, In2008(At(d, 0, 0), 0)) == (if d <= Mar30 then Hour else 2 * Hour)
      && InfoAt(Paris, In2008(At(d, 0, 0), 0)) == Definite(if d <= Mar30 then Hour else 2 * Hour)
    ensures forall d | Oct26 - 2 <= d <= Oct26 + 5 ::
      && OffsetAt(Paris, In2008(At(d, 0, 0), 0)) == (if d <= Oct26 then 2 * Hour else Hour)
      && InfoAt(Paris, In2008(At(d, 0, 0), 0)) == Definite(if d <= Oct26 then 2 * Hour else Hour)
  {
    forall d: nat | Mar30 - 6 <= d <= Mar30 + 1 || Oct26 - 2 <= d <= Oct26 + 5
      ensures OffsetAt(Paris, In2008(At(d, 0, 0), 0)) == (if d <= Mar30 || Oct26 < d then Hour else 2 * Hour)
      ensures InfoAt(Paris, In2008(At(d, 0, 0), 0)) == Definite(if d <= Mar30 || Oct26 < d then Hour else 2 * Hour)
    {
      SeasonalOffset(Paris, In2008(At(d, 0, 0), 0));
      SeasonalInfo(Paris, In2008(At(d, 0, 0), 0));
    }
  }

  /** New York at midnight -05:00 from 8 to 14 March and at midnight -04:00
      from 1 to 7 November, and at local midnight on the same days. */
  lemma NewYorkDaily()
    ensures forall d | Mar9 - 1 <= d <= Mar9 + 5 ::
      && OffsetAt(NewYork, In2008(At(d, 5, 0), 0)) == (if d <= Mar9 then -5 * Hour else -4 * Hour)
      && InfoAt(NewYork, In2008(At(d, 0, 0), 0)) == Definite(if d <= Mar9 then -5 * Hour else -4 * Hour)
    ensures forall d | Nov2 - 1 <= d <= Nov2 + 5 ::
      && OffsetAt(NewYork, In2008(At(d, 4, 0), 0)) == (if d <= Nov2 then -4 * Hour else -5 * Hour)
      && InfoAt(NewYork, In2008(At(d, 0, 0), 0)) == Definite(if d <= Nov2 then -4 * Hour else -5 * Hour)
  {
    forall d: nat | Mar9 - 1 <= d <= Mar9 + 5
      ensures OffsetAt(NewYork, In2008(At(d, 5, 0), 0)) == (if d <= Mar9 then -5 * Hour else -4 * Hour)
      ensures InfoAt(NewYork, In2008(At(d, 0, 0), 0)) == Definite(if d <= Mar9 then -5 * Hour else -4 * Hour)
    {
      SeasonalOffset(NewYork, In2008(At(d, 5, 0), 0));
      SeasonalInfo(NewYork, In2008(At(d, 0, 0), 0));
    }
    forall d: nat | Nov2 - 1 <= d <= Nov2 + 5
      ensures OffsetAt(NewYork, In2008(At(d, 4, 0), 0)) == (if d <= Nov2 then -4 * Hour else -5 * Hour)
      ensures InfoAt(NewYork, In2008(At(d, 0, 0), 0)) == Definite(if d <= Nov2 then -4 * Hour else -5 * Hour)
    {
      SeasonalOffset(NewYork, In2008(At(d, 4, 0), 0));
      SeasonalInfo(NewYork, In2008(At(d, 0, 0), 0));
    }
  }

  /** Paris at midnight on the first of each month: +02:00 from April to
      October. */
  lemma ParisMonthly()
    ensures forall m | 0 <= m < 12 ::
      OffsetAt(Paris, In2008(At(MonthStarts[m], 0, 0), 0)) == if 3 <= m < 10 then 2 * Hour else Hour
    ensures forall m | 0 <= m < 12 ::
      InfoAt(Paris, In2008(At(MonthStarts[m], 0, 0), 0)) == Definite(if 3 <= m < 10 then 2 * Hour else Hour)
  {
    forall m | 0 <= m < 12
      ensures OffsetAt(Paris, In2008(At(MonthStarts[m], 0, 0), 0)) == if 3 <= m < 10 then 2 * Hour else Hour
      ensures InfoAt(Paris, In2008(At(MonthStarts[m], 0, 0), 0)) == Definite(if 3 <= m < 10 then 2 * Hour else Hour)
    {
      SeasonalOffset(Paris, In2008(At(MonthStarts[m], 0, 0), 0));
      SeasonalInfo(Paris, In2008(At(MonthStarts[m], 0, 0), 0));
    }
  }

  /** New York at local midnight on the 1st and the 28th of each month,
      read as an instant with -05:00 and as a local time: -04:00 from 28
      March to 28 October (and on 1 November, before the change). */
  lemma NewYorkMonthly()
    ensures forall m | 0 <= m < 12 ::
      && OffsetAt(NewYork, In2008(At(MonthStarts[m], 5, 0), 0)) == (if 3 <= m <= 10 then -4 * Hour else -5 * Hour)
      && OffsetAt(NewYork, In2008(At(MonthStarts[m] + 27, 5, 0), 0)) == (if 2 <= m <= 9 then -4 * Hour else -5 * Hour)
    ensures forall m | 0 <= m < 12 ::
      && InfoAt(NewYork, In2008(At(MonthStarts[m], 0, 0), 0)) == Definite(if 3 <= m <= 10 then -4 * Hour else -5 * Hour)
      && InfoAt(NewYork, In2008(At(MonthStarts[m] + 27, 0, 0), 0)) == Definite(if 2 <= m <= 9 then -4 * Hour else -5 * Hour)
  {
    forall m | 0 <= m < 12
      ensures OffsetAt(NewYork, In2008(At(MonthStarts[m], 5, 0), 0)) == (if 3 <= m <= 10 then -4 * Hour else -5 * Hour)
      ensures OffsetAt(NewYork, In2008(At(MonthStarts[m] + 27, 5, 0), 0)) == (if 2 <= m <= 9 then -4 * Hour else -5 * Hour)
      ensures InfoAt(NewYork, In2008(At(MonthStarts[m], 0, 0), 0)) == Definite(if 3 <= m <= 10 then -4 * Hour else -5 * Hour)
      ensures InfoAt(NewYork, In2008(At(MonthStarts[m] + 27, 0, 0), 0)) == Definite(if 2 <= m <= 9 then -4 * Hour else -5 * Hour)
    {
      SeasonalOffset(NewYork, In2008(At(MonthStarts[m], 5, 0), 0));
      SeasonalOffset(NewYork, In2008(At(MonthStarts[m] + 27, 5, 0), 0));
      SeasonalInfo(NewYork, In2008(At(MonthStarts[m], 0, 0), 0));
      SeasonalInfo(NewYork, In2008(At(MonthStarts[m] + 27, 0, 0), 0));
    }
  }

  /** London's offset changes at 01:00Z on the changeover days and not a
      nanosecond earlier. */
  lemma LondonOffsetCutover()
    ensures OffsetAt(London, JustBefore(Mar30, 1)) == 0
    ensures OffsetAt(London, In2008(At(Mar30, 1, 0), 0)) == Hour
    ensures OffsetAt(London, JustBefore(Oct26, 1)) == Hour
    ensures OffsetAt(London, In2008(At(Oct26, 1, 0), 0)) == 0
  {
    OffsetSwitchesAtTransition(London.transitions, 0, 0);
    OffsetSwitchesAtTransition(London.transitions, 0, 1);
  }

  /** Paris's offset changes at the same instants as London's. */
  lemma ParisOffsetCutover()
    ensures OffsetAt(Paris, JustBefore(Mar30, 1)) == Hour
    ensures OffsetAt(Paris, In2008(At(Mar30, 1, 0), 0)) == 2 * Hour
    ensures OffsetAt(Paris, JustBefore(Oct26, 1)) == 2 * Hour
    ensures OffsetAt(Paris, In2008(At(Oct26, 1, 0), 0)) == Hour
  {
    OffsetSwitchesAtTransition(Paris.transitions, Hour, 0);
    OffsetSwitchesAtTransition(Paris.transitions, Hour, 1);
  }

  /** New York's offset changes at 02:00 local time (07:00Z, then 06:00Z). */
  lemma NewYorkOffsetCutover()
    ensures OffsetAt(NewYork, JustBefore(Mar9, 7)) == -5 * Hour
    ensures OffsetAt(NewYork, In2008(At(Mar9, 7, 0), 0)) == -4 * Hour
    ensures OffsetAt(NewYork, JustBefore(Nov2, 6)) == -4 * Hour
    ensures OffsetAt(NewYork, In2008(At(Nov2, 6, 0), 0)) == -5 * Hour
  {
    OffsetSwitchesAtTransition(NewYork.transitions, -5 * Hour, 0);
    OffsetSwitchesAtTransition(NewYork.transitions, -5 * Hour, 1);
  }

  /** Local 01:00 on 30 March does not exist in London: neither side's
      offset is valid, and the estimate is summer time. */
  lemma LondonGap()
    ensures var info := InfoAt(London, In2008(At(Mar30, 1, 0), 0));
      && info.IsDiscontinuity() && info.GetOffset() == None
      && info.EstimatedOffset() == Hour
      && info.discontinuity.IsGap() && !info.discontinuity.IsOverlap()
      && info.discontinuity.OffsetBefore() == 0 && info.discontinuity.OffsetAfter() == Hour
      && info.discontinuity.TransitionInstant() == EuSpring
      && !info.IsValidOffset(0) && !info.IsValidOffset(Hour)
  {
    InfoFromInWindow(London.transitions, 0, In2008(At(Mar30, 1, 0), 0), 0);
  }

  /** Local 01:00 on 26 October occurs twice in London: with +01:00 and
      with Z, and with no other offset. */
  lemma LondonOverlap()
    ensures var info := InfoAt(London, In2008(At(Oct26, 1, 0), 0));
      && info.IsDiscontinuity() && info.GetOffset() == None
      && info.EstimatedOffset() == 0
      && !info.discontinuity.IsGap() && info.discontinuity.IsOverlap()
      && info.discontinuity.OffsetBefore() == Hour && info.discontinuity.OffsetAfter() == 0
      && info.discontinuity.TransitionInstant() == EuAutumn
      && !info.IsValidOffset(-Hour) && info.IsValidOffset(0)
      && info.IsValidOffset(Hour) && !info.IsValidOffset(2 * Hour)
  {
    InfoFromInWindow(London.transitions, 0, In2008(At(Oct26, 1, 0), 0), 1);
  }

  /** Just before and just after its windows a London local time is
      definite. */
  lemma LondonAroundChanges()
    ensures InfoAt(London, JustBefore(Mar30, 1)) == Definite(0)
    ensures InfoAt(London, In2008(At(Mar30, 2, 0), 0)) == Definite(Hour)
    ensures InfoAt(London, JustBefore(Oct26, 1)) == Definite(Hour)
    ensures InfoAt(London, In2008(At(Oct26, 2, 0), 0)) == Definite(0)
  {
    var ts := London.transitions;
    InfoFromBetweenWindows(ts, 0, JustBefore(Mar30, 1), 0);
    InfoFromBetweenWindows(ts, 0, In2008(At(Mar30, 2, 0), 0), 1);
    InfoFromBetweenWindows(ts, 0, JustBefore(Oct26, 1), 1);
    InfoFromBetweenWindows(ts, 0, In2008(At(Oct26, 2, 0), 0), 2);
  }

  /** Paris's gap is local [02:00, 03:00) on 30 March: the last nanosecond
      before it is +01:00, 02:00 is in it, 03:00 is +02:00. */
  lemma ParisGap()
    ensures InfoAt(Paris, JustBefore(Mar30, 2)) == Definite(Hour)
    ensures InfoAt(Paris, In2008(At(Mar30, 3, 0), 0)) == Definite(2 * Hour)
    ensures var info := InfoAt(Paris, In2008(At(Mar30, 2, 0), 0));
      && info.IsDiscontinuity() && info.EstimatedOffset() == 2 * Hour
      && info.discontinuity.IsGap()
      && info.discontinuity.OffsetBefore() == Hour && info.discontinuity.OffsetAfter() == 2 * Hour
      && info.discontinuity.TransitionInstant() == EuSpring
      && !info.IsValidOffset(Hour) && !info.IsValidOffset(2 * Hour)
  {
    var ts := Paris.transitions;
    InfoFromBetweenWindows(ts, Hour, JustBefore(Mar30, 2), 0);
    InfoFromBetweenWindows(ts, Hour, In2008(At(Mar30, 3, 0), 0), 1);
    InfoFromInWindow(ts, Hour, In2008(At(Mar30, 2, 0), 0), 0);
  }

  /** Paris's overlap is local [02:00, 03:00) on 26 October. */
  lemma ParisOverlap()
    ensures InfoAt(Paris, JustBefore(Oct26, 2)) == Definite(2 * Hour)
    ensures InfoAt(Paris, In2008(At(Oct26, 3, 0), 0)) == Definite(Hour)
    ensures var info := InfoAt(Paris, In2008(At(Oct26, 2, 0), 0));
      && info.IsDiscontinuity() && info.EstimatedOffset() == Hour
      && info.discontinuity.IsOverlap()
      && info.discontinuity.OffsetBefore() == 2 * Hour && info.discontinuity.OffsetAfter() == Hour
      && info.discontinuity.TransitionInstant() == EuAutumn
      && !info.IsValidOffset(0) && info.IsValidOffset(Hour)
      && info.IsValidOffset(2 * Hour) && !info.IsValidOffset(3 * Hour)
  {
    var ts := Paris.transitions;
    InfoFromBetweenWindows(ts, Hour, JustBefore(Oct26, 2), 1);
    InfoFromBetweenWindows(ts, Hour, In2008(At(Oct26, 3, 0), 0), 2);
    InfoFromInWindow(ts, Hour, In2008(At(Oct26, 2, 0), 0), 1);
  }

  /** New York's gap is local [02:00, 03:00) on 9 March, its overlap local
      [01:00, 02:00) on 2 November. */
  lemma NewYorkGapAndOverlap()
    ensures var gap := InfoAt(NewYork, In2008(At(Mar9, 2, 0), 0));
      && gap.IsDiscontinuity() && gap.EstimatedOffset() == -4 * Hour
      && gap.discontinuity.IsGap()
      && gap.discontinuity.OffsetBefore() == -5 * Hour && gap.discontinuity.OffsetAfter() == -4 * Hour
      && gap.discontinuity.TransitionInstant() == UsSpring
      && !gap.IsValidOffset(-5 * Hour) && !gap.IsValidOffset(-4 * Hour)
    ensures var overlap := InfoAt(NewYork, In2008(At(Nov2, 1, 0), 0));
      && overlap.IsDiscontinuity() && overlap.EstimatedOffset() == -5 * Hour
      && overlap.discontinuity.IsOverlap()
      && overlap.discontinuity.OffsetBefore() == -4 * Hour && overlap.discontinuity.OffsetAfter() == -5 * Hour
      && overlap.discontinuity.TransitionInstant() == UsAutumn
      && !overlap.IsValidOffset(-Hour) && overlap.IsValidOffset(-5 * Hour)
      && overlap.IsValidOffset(-4 * Hour) && !overlap.IsValidOffset(2 * Hour)
    ensures InfoAt(NewYork, JustBefore(Mar9, 2)) == Definite(-5 * Hour)
    ensures InfoAt(NewYork, In2008(At(Mar9, 3, 0), 0)) == Definite(-4 * Hour)
    ensures InfoAt(NewYork, JustBefore(Nov2, 1)) == Definite(-4 * Hour)
    ensures InfoAt(NewYork, In2008(At(Nov2, 2, 0), 0)) == Definite(-5 * Hour)
  {
    var ts := NewYork.transitions;
    InfoFromInWindow(ts, -5 * Hour, In2008(At(Mar9, 2, 0), 0), 0);
    InfoFromInWindow(ts, -5 * Hour, In2008(At(Nov2, 1, 0), 0), 1);
    InfoFromBetweenWindows(ts, -5 * Hour, JustBefore(Mar9, 2), 0);
    InfoFromBetweenWindows(ts, -5 * Hour, In2008(At(Mar9, 3, 0), 0), 1);
    InfoFromBetweenWindows(ts, -5 * Hour, JustBefore(Nov2, 1), 1);
    InfoFromBetweenWindows(ts, -5 * Hour, In2008(At(Nov2, 2, 0), 0), 2);
  }

  /** The text forms of London's discontinuities. */
  lemma LondonGapText()
    ensures Discontinuity(London.transitions[0]).ToString() == "Discontinuity[Gap from Z to +01:00]"
  {
    WholeHourText(Hour);
  }

  lemma LondonOverlapText()
    ensures Discontinuity(London.transitions[1]).ToString() == "Discontinuity[Overlap from +01:00 to Z]"
  {
    WholeHourText(Hour);
  }

  /** The text forms of Paris's discontinuities. */
  lemma ParisGapText()
    ensures Discontinuity(Paris.transitions[0]).ToString() == "Discontinuity[Gap from +01:00 to +02:00]"
  {
    EuropeanHourTexts();
  }

  lemma ParisOverlapText()
    ensures Discontinuity(Paris.transitions[1]).ToString() == "Discontinuity[Overlap from +02:00 to +01:00]"
  {
    EuropeanHourTexts();
  }

  /** The text forms of New York's discontinuities. */
  lemma NewYorkGapText()
    ensures Discontinuity(NewYork.transitions[0]).ToString() == "Discontinuity[Gap from -05:00 to -04:00]"
  {
    AmericanHourTexts();
  }

  lemma NewYorkOverlapText()
    ensures Discontinuity(NewYork.transitions[1]).ToString() == "Discontinuity[Overlap from -04:00 to -05:00]"
  {
    AmericanHourTexts();
  }

  lemma EuropeanHourTexts()
    ensures FormatOffset(Hour) == "+01:00" && FormatOffset(2 * Hour) == "+02:00"
  {
    WholeHourText(Hour);
    WholeHourText(2 * Hour);
  }

  lemma AmericanHourTexts()
    ensures FormatOffset(-4 * Hour) == "-04:00" && FormatOffset(-5 * Hour) == "-05:00"
  {
    WholeHourText(-4 * Hour);
    WholeHourText(-5 * Hour);
  }

  /** A whole number of hours is written as its sign, two hour digits and
      ":00". */
  lemma WholeHourText(o: Offset)
    requires o != 0 && o % Hour == 0
    ensures var magnitude := if o < 0 then -o else o;
      FormatOffset(o) == [if o < 0 then '-' else '+'] + TwoDigits(magnitude / Hour) + ":00"
  {
    var magnitude := if o < 0 then -o else o;
    assert CanonicalSpelling(o) == Signed(o < 0, magnitude / Hour, 0, 0, HoursMinutes(true));
  }

  /** The identifiers of fixed zones. */
  lemma FixedZoneIds(catalogue: map<string, ZoneRules>)
    ensures FixedZoneId(0) == "UTC"
    ensures FixedZoneId(Hour + 2 * 60 + 3) == "UTC+01:02:03"
    ensures Canonical("UTC+01:02:03", catalogue) == Ok(Entry("UTC+01:02:03", Fixed(Hour + 2 * 60 + 3)))
  {
    FormatOneHourTwoMinutesThreeSeconds();
    FixedZoneIdCanonical(Hour + 2 * 60 + 3, catalogue);
  }

  lemma FormatOneHourTwoMinutesThreeSeconds()
    ensures FormatOffset(Hour + 2 * 60 + 3) == "+01:02:03"
  {
    var sp := Signed(false, 1, 2, 3, HoursMinutesSeconds(true));
    assert CanonicalSpelling(Hour + 2 * 60 + 3) == sp;
    assert Text(sp) == "+01:02:03" by { SecondsLayoutText(); }
  }

  lemma SecondsLayoutText()
    ensures Text(Signed(false, 1, 2, 3, HoursMinutesSeconds(true))) == "+01:02:03"
  {
  }

  /** The spellings of zero the test suite uses. */
  const ZeroTexts := ["Z", "+00", "+0000", "+00:00", "+000000", "+00:00:00",
                      "-00", "-0000", "-00:00", "-000000", "-00:00:00"]

  /** Each signed layout, written with zero fields, parses to zero. */
  lemma SignedZeroParses(negative: bool, layout: Layout)
    ensures ParseOffset(Text(Signed(negative, 0, 0, 0, layout))) == Ok(0)
  {
    ParseAccepts(Signed(negative, 0, 0, 0, layout));
  }

  /** The signed layouts, in the order the suite lists them. */
  const SignedLayouts := [Hours, HoursMinutes(false), HoursMinutes(true), HoursMinutesSeconds(false), HoursMinutesSeconds(true)]

  /** After `Z`, the suite lists the zero spelling of each signed layout,
      first with `+` and then with `-`. */
  lemma PositiveZeroTextAt(k: nat)
    requires k < 5
    ensures ZeroTexts[1 + k] == Text(Signed(false, 0, 0, 0, SignedLayouts[k]))
  {
  }

  lemma NegativeZeroTextAt(k: nat)
    requires k < 5
    ensures ZeroTexts[6 + k] == Text(Signed(true, 0, 0, 0, SignedLayouts[k]))
  {
  }

  lemma ZeroTextsParse()
    ensures forall s | s in ZeroTexts :: ParseOffset(s) == Ok(0)
  {
    forall i | 0 <= i < 11
      ensures ParseOffset(ZeroTexts[i]) == Ok(0)
    {
      if 1 <= i < 6 {
        PositiveZeroTextAt(i - 1);
        SignedZeroParses(false, SignedLayouts[i - 1]);
      } else if 6 <= i {
        NegativeZeroTextAt(i - 6);
        SignedZeroParses(true, SignedLayouts[i - 6]);
      }
    }
  }

  /** Every spelling of zero in the test suite, after "UTC", leads to the
      UTC zone. */
  lemma ZeroSpellings(catalogue: map<string, ZoneRules>)
    ensures forall s | s in ZeroTexts :: Canonical("UTC" + s, catalogue) == Ok(Entry("UTC", Fixed(0)))
  {
    ZeroTextsParse();
    forall s | s in ZeroTexts
      ensures Canonical("UTC" + s, catalogue) == Ok(Entry("UTC", Fixed(0)))
    {
      ZeroSpellingsLeadToUtc(s, catalogue);
    }
  }

  /** The malformed and out-of-range suffixes the test suite uses. */
  const Letters := ["A", "B", "C", "D", "E", "F", "G", "H", "I", "J", "K", "L", "M",
                    "N", "O", "P", "Q", "R", "S", "T", "U", "V", "W", "X", "Y", "ZZ"]
  const ShortPositive := ["+0", "+0:00", "+00:0", "+0:0", "+000", "+00000",
                          "+0:00:00", "+00:0:00", "+00:00:0", "+0:0:0", "+0:0:00", "+00:0:0", "+0:00:0"]
  const BadPositive := ["+01_00", "+01;00", "+01@00", "+01:AA"]
  const LargePositive := ["+19", "+19:00", "+18:01", "+18:00:01", "+1801", "+180001"]
  const ShortNegative := ["-0", "-0:00", "-00:0", "-0:0", "-000", "-00000",
                          "-0:00:00", "-00:0:00", "-00:00:0", "-0:0:0", "-0:0:00", "-00:0:0", "-0:00:0"]
  const LargeNegative := ["-19", "-19:00", "-18:01", "-18:00:01", "-1801", "-180001"]
  const BadNegative := ["-01_00", "-01;00", "-01@00", "-01:AA", "@01:00"]
  const InvalidTexts := Letters + ShortPositive + BadPositive + LargePositive + ShortNegative + LargeNegative + BadNegative

  lemma LettersRejected()
    ensures forall s | s in Letters :: ParseOffset(s).Err?
  {
  }

  lemma ShortPositiveRejected()
    ensures forall s | s in ShortPositive :: ParseOffset(s).Err?
  {
  }

  lemma BadPositiveRejected()
    ensures forall s | s in BadPositive :: ParseOffset(s).Err?
  {
  }

  lemma LargePositiveRejected()
    ensures forall s | s in LargePositive :: ParseOffset(s).Err?
  {
  }

  lemma LargeNegativeRejected()
    ensures forall s | s in LargeNegative :: ParseOffset(s).Err?
  {
  }

  lemma ShortNegativeRejected()
    ensures forall s | s in ShortNegative :: ParseOffset(s).Err?
  {
  }

  lemma BadNegativeRejected()
    ensures forall s | s in BadNegative :: ParseOffset(s).Err?
  {
  }

  /** Every malformed or out-of-range suffix in the test suite, after
      "UTC", is a format error. */
  lemma InvalidSuffixes(catalogue: map<string, ZoneRules>)
    ensures forall s | s in InvalidTexts :: Canonical("UTC" + s, catalogue) == Err(FormatError)
  {
    LettersRejected();
    ShortPositiveRejected();
    BadPositiveRejected();
    LargePositiveRejected();
    ShortNegativeRejected();
    LargeNegativeRejected();
    BadNegativeRejected();
    forall s | s in InvalidTexts
      ensures Canonical("UTC" + s, catalogue) == Err(FormatError)
    {
      assert || s in Letters || s in ShortPositive || s in BadPositive || s in LargePositive
             || s in ShortNegative || s in LargeNegative || s in BadNegative;
      UnparsableSuffixRejected(s, catalogue);
    }
  }

  /** A name without the "UTC" prefix that the catalogue does not hold is
      an unknown zone. */
  lemma UnknownIdentifier(catalogue: map<string, ZoneRules>)
    requires "Unknown" !in catalogue
    ensures Canonical("Unknown", catalogue) == Err(UnknownZone)
  {
    assert "Unknown"[..3][1] == 'n';
  }

  /** A registry whose catalogue holds the three region zones. */
  predicate HoldsFixtures(catalogue: map<string, ZoneRules>) {
    && "Europe/London" in catalogue && catalogue["Europe/London"] == London
    && "Europe/Paris" in catalogue && catalogue["Europe/Paris"] == Paris
    && "America/New_York" in catalogue && catalogue["America/New_York"] == NewYork
  }

  /** The UTC constant is what "UTC" and the zero offset resolve to; it is
      fixed, has offset zero at every instant and resolves every local time
      definitely to zero. */
  method UtcScenario(registry: ZoneRegistry) returns (byName: Result<Zone>, byOffset: Zone)
    requires registry.Valid()
    modifies registry
    ensures byName == Ok(registry.utc) && byOffset == registry.utc
    ensures registry.utc.id == "UTC" && registry.utc.rules == Fixed(0)
    ensures forall instant :: OffsetAt(registry.utc.rules, instant) == 0
    ensures forall local :: InfoAt(registry.utc.rules, local) == Definite(0)
  {
    byName := registry.Resolve(Some("UTC"));
    byOffset := registry.ResolveOffset(0);
  }

  /** Region zones keep their identifiers; London and Paris are different
      zones; resolving Paris twice gives one zone. */
  method EqualityScenario(registry: ZoneRegistry) returns (london: Zone, paris: Zone, parisAgain: Zone)
    requires registry.Valid() && HoldsFixtures(registry.catalogue)
    modifies registry
    ensures london.id == "Europe/London" && london.rules == London
    ensures paris.id == "Europe/Paris" && paris.rules == Paris
    ensures london != paris && paris == parisAgain
  {
    assert "Europe/London"[..3][0] == 'E' && "Europe/Paris"[..3][0] == 'E';
    var r := registry.Resolve(Some("Europe/London"));
    london := r.value;
    r := registry.Resolve(Some("Europe/Paris"));
    paris := r.value;
    r := registry.Resolve(Some("Europe/Paris"));
    parisAgain := r.value;
  }

  /** New York resolves to a ruled zone under its own name. */
  method NewYorkScenario(registry: ZoneRegistry) returns (newYork: Zone)
    requires registry.Valid() && HoldsFixtures(registry.catalogue)
    modifies registry
    ensures newYork.id == "America/New_York" && newYork.rules == NewYork && !newYork.rules.Fixed?
  {
    assert "America/New_York"[..3][0] == 'A';
    var r := registry.Resolve(Some("America/New_York"));
    newYork := r.value;
  }

  /** A null identifier and an unknown region name are both refused, and
      neither changes the registry. */
  method RejectionScenario(registry: ZoneRegistry) returns (nothing: Result<Zone>, unknown: Result<Zone>)
    requires registry.Valid() && "Unknown" !in registry.catalogue
    modifies registry
    ensures nothing == Err(NullArgument) && unknown == Err(UnknownZone)
    ensures registry.cache == old(registry.cache)
  {
    nothing := registry.Resolve(None);
    UnknownIdentifier(registry.catalogue);
    unknown := registry.Resolve(Some("Unknown"));
  }
}
