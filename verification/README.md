# Time zones of the javax.time reference implementation

This project models the behaviour that `TestTimeZone` pins down for
`javax.time.calendar.TimeZone`. That behaviour has three parts.

- **The offset suffix codec.** A fixed zone is named `UTC` followed by an
  offset text: `Z`, or a sign and two-digit fields in one of the layouts
  `HH`, `HHMM`, `HH:MM`, `HHMMSS` or `HH:MM:SS`. Parsing is modelled
  against a declarative grammar (`Offsets.Spelling`). Formatting writes the
  canonical spelling: `Z`, `+HH:MM`, or `+HH:MM:SS` when there are seconds.
- **Zone resolution.** A zone is a fixed offset or an initial offset
  followed by a transition list.
  - `getOffset(instant)` becomes `Resolution.OffsetAt`.
  - `getOffsetInfo(localDateTime)` becomes `Resolution.InfoAt`. It answers
    with one definite offset, or with the `Discontinuity` (gap or overlap)
    whose local window contains the timestamp.
  - The central theorem ties the two views together. An offset is valid
    for a local timestamp exactly when reading the timestamp with that
    offset gives an instant at which the zone really has that offset.
- **The canonical registry.** `TimeZone.timeZone(String)` resolves an
  identifier to a zone object. Every identifier naming the same zone gives
  the very same object, as the suite's `assertSame` checks require.
  - The registry is a class holding a `map` from canonical identifier to
    zone. It is filled on a miss and never shrunk.
  - A fixed zone's canonical identifier is `UTC` for zero, otherwise `UTC`
    followed by the canonical offset text.

Instants and local timestamps are whole nanoseconds on their own time-line.
Offsets are whole seconds in [-18:00, +18:00].

The modules are:

- `ZoneErrors`: `Option`, `Result` and the error kinds.
- `Offsets`: the codec.
- `Discontinuities`: `Transition`, `Discontinuity` and `OffsetInfo`.
- `Resolution`: the rules and both resolution functions.
- `Registry`: the canonical registry.
- `Fixtures`: the 2008 Europe/London, Europe/Paris and America/New_York
  transitions, with the suite's concrete assertions proved over them.

Test-suite exceptions become error values:

- `IllegalArgumentException` becomes `Err(FormatError)` or `Err(UnknownZone)`.
- `NullPointerException` on a null identifier becomes `Err(NullArgument)`.

## Model

| member | source | states |
|---|---|---|
| Offsets.ParseAccepts | ref-UTC/src/test/java/javax/time/calendar/TestTimeZone.java:144-180 | every well-formed spelling in range parses to its value; a well-formed spelling out of range (`+19`, `+18:01`, `-18:00:01`) is a FormatError |
| Offsets.ParseOnlySpellings | ref-UTC/src/test/java/javax/time/calendar/TestTimeZone.java:156-180 | a text the parser accepts is exactly the text of some well-formed, in-range spelling, and the parsed value is that spelling's value; so single-digit fields, bad separators, letters and bad signs are rejected |
| Offsets.ParseOffset | ref-UTC/src/test/java/javax/time/calendar/TestTimeZone.java:156-180 | every parse failure is a format error |
| Offsets.ParseField | ref-UTC/src/test/java/javax/time/calendar/TestTimeZone.java:158-166 | a field is read exactly when it is two digits (after a colon where the layout has one), and its text is the two-digit form of its value |
| Offsets.CanonicalSpelling | ref-UTC/src/test/java/javax/time/calendar/TestTimeZone.java:718-721 | the canonical spelling is well formed, in range and denotes the offset; it is `Z` exactly for zero, and has a seconds field exactly when the offset is not a whole number of minutes |
| Offsets.FormatOffset | ref-UTC/src/test/java/javax/time/calendar/TestTimeZone.java:718-721 | the text is `Z` exactly for zero, otherwise six characters (`+HH:MM`) for whole minutes and nine (`+HH:MM:SS`) otherwise |
| Offsets.ParseFormat | ref-UTC/src/test/java/javax/time/calendar/TestTimeZone.java:718-721 | parsing the formatted text of any offset gives that offset back |
| Offsets.FormatInjective | ref-UTC/src/test/java/javax/time/calendar/TestTimeZone.java:718-721 | distinct offsets have distinct texts |
| Discontinuities.ToStringDetermines | ref-UTC/src/test/java/javax/time/calendar/TestTimeZone.java:322-345 | `Discontinuity.ToString`: two discontinuities with the same text form have the same kind (gap or overlap) and the same offsets before and after |
| Resolution.OffsetFrom | ref-UTC/src/test/java/javax/time/calendar/TestTimeZone.java:212-256 | getOffset over a transition list: the offset before the first transition, and afterwards the `after` of some transition at or before the instant |
| Resolution.OffsetAt | ref-UTC/src/test/java/javax/time/calendar/TestTimeZone.java:133 | getOffset: a fixed zone's own offset at every instant; for a ruled zone the initial offset or the `after` of a transition that has happened |
| Resolution.InfoFrom | ref-UTC/src/test/java/javax/time/calendar/TestTimeZone.java:258-346 | getOffsetInfo over a transition list: an ambiguous answer is the discontinuity of a transition whose window contains the timestamp; a definite one is the current offset or a side of some transition |
| Resolution.InfoAt | ref-UTC/src/test/java/javax/time/calendar/TestTimeZone.java:134-138 | getOffsetInfo: a fixed zone is always definite with its offset; a ruled zone is ambiguous only with the discontinuity of one of its transitions whose window contains the timestamp |
| Resolution.OffsetAtLatest | ref-UTC/src/test/java/javax/time/calendar/TestTimeZone.java:212-225 | between a transition's instant and the next one's, the zone's offset is that transition's `after` |
| Resolution.OffsetSwitchesAtTransition | ref-UTC/src/test/java/javax/time/calendar/TestTimeZone.java:238-240 | one nanosecond before a transition the offset is its `before`, and at the transition it is its `after` |
| Resolution.InfoFromValidity | ref-UTC/src/test/java/javax/time/calendar/TestTimeZone.java:304-346 | over any well-formed transition list, the offset information calls `o` valid for a local timestamp exactly when the instant that `o` gives has offset `o` |
| Resolution.InfoAtValidity | ref-UTC/src/test/java/javax/time/calendar/TestTimeZone.java:337-344 | the same equivalence for a zone's rules, fixed or ruled |
| Resolution.InfoFromWindows | ref-UTC/src/test/java/javax/time/calendar/TestTimeZone.java:304-310 | a local timestamp is ambiguous exactly when some transition's local window contains it, and the reported discontinuity is one of the zone's transitions whose window contains it |
| Resolution.InfoFromBetweenWindows | ref-UTC/src/test/java/javax/time/calendar/TestTimeZone.java:284-286 | between two consecutive windows the result is definite, with the offset in force between those transitions |
| Resolution.InfoFromInWindow | ref-UTC/src/test/java/javax/time/calendar/TestTimeZone.java:304-315 | inside the window of transition `i` the result is the discontinuity of transition `i` |
| Resolution.UnambiguousOutsideWindows | ref-UTC/src/test/java/javax/time/calendar/TestTimeZone.java:725-732 | outside every window the result is definite, and its offset is the only one at which the local timestamp occurs |
| Resolution.DefiniteInfo | ref-UTC/src/test/java/javax/time/calendar/TestTimeZone.java:725-732 | `OffsetInfo` accessors on a definite answer of a well-formed zone: not a discontinuity, no discontinuity object, the offset present and equal to the estimate and valid, and that offset is the only one at which the local timestamp occurs |
| Resolution.AmbiguousInfo | ref-UTC/src/test/java/javax/time/calendar/TestTimeZone.java:304-346 | `OffsetInfo` and `Discontinuity` accessors on an ambiguous answer: no offset, the discontinuity present, the estimate is the offset after; the discontinuity is exactly one of a gap and an overlap; in a gap the local timestamp occurs with no offset, in an overlap with exactly the offsets before and after |
| Registry.FixedZoneId | ref-UTC/src/test/java/javax/time/calendar/TestTimeZone.java:715-722 | a fixed zone's identifier starts with `UTC`, and is exactly `UTC` for the zero offset |
| Registry.Canonical | ref-UTC/src/test/java/javax/time/calendar/TestTimeZone.java:144-190 | it fails with a format error exactly when the text after `UTC` is not an offset, and as an unknown zone exactly when a name without the `UTC` prefix is not in the catalogue; a catalogued name without that prefix is its own key with the catalogue's rules; a fixed-zone result is keyed by its canonical identifier; a region result carries the catalogue's rules for that identifier |
| Registry.FixedZoneIdCanonical | ref-UTC/src/test/java/javax/time/calendar/TestTimeZone.java:718-719 | a fixed zone's identifier resolves to itself with that offset |
| Registry.CanonicalIdempotent | ref-UTC/src/test/java/javax/time/calendar/TestTimeZone.java:139-140 | the canonical key an identifier leads to leads to itself, with the same rules |
| Registry.FixedZoneIdInjective | ref-UTC/src/test/java/javax/time/calendar/TestTimeZone.java:718-719 | different offsets have different fixed zone identifiers |
| Registry.OffsetSuffixLeadsToZone | ref-UTC/src/test/java/javax/time/calendar/TestTimeZone.java:144-154 | `UTC` followed by any text that parses to an offset leads to that offset's fixed zone under its canonical identifier, whatever the catalogue holds |
| Registry.ZeroSpellingsLeadToUtc | ref-UTC/src/test/java/javax/time/calendar/TestTimeZone.java:144-154 | `UTC` followed by any text that parses to zero leads to the `UTC` key |
| Registry.UnparsableSuffixRejected | ref-UTC/src/test/java/javax/time/calendar/TestTimeZone.java:156-180 | `UTC` followed by a non-empty text that does not parse is a format error, whatever the catalogue holds |
| Registry.InsertKeepsValid | ref-UTC/src/test/java/javax/time/calendar/TestTimeZone.java:193-199 | inserting a zone under the canonical key an identifier leads to, with the rules it names, keeps the cache invariant: every cached zone sits under its own identifier, which leads to itself with that zone's rules |
| Registry.Zone.constructor | ref-UTC/src/test/java/javax/time/calendar/TestTimeZone.java:193-199 | a zone keeps the identifier and rules it was created with; `getID` and `toString` are that identifier |
| Registry.ZoneRegistry.constructor | ref-UTC/src/test/java/javax/time/calendar/TestTimeZone.java:127-131 | the new registry holds only the UTC zone, with identifier `UTC` and rules fixed at zero |
| Registry.ZoneRegistry.Resolve | ref-UTC/src/test/java/javax/time/calendar/TestTimeZone.java:182-199 | a null identifier is a null-argument error and an unresolvable one passes its error on, both leaving the cache unchanged; otherwise the result has the canonical key and rules, is the cached object when that key is cached, and is a new object inserted under the key when it is not; old entries are kept and the registry invariant holds |
| Registry.ZoneRegistry.ResolveOffset | ref-UTC/src/test/java/javax/time/calendar/TestTimeZone.java:139-140 | the zone of an offset has that offset's fixed identifier and rules, is interned the same way, and is the UTC constant for zero |
| Registry.ZoneRegistry.Reload | ref-UTC/src/test/java/javax/time/calendar/TestTimeZone.java:79-122 | reading back a persisted zone by its identifier yields the very same object and changes nothing |
| Registry.ZoneRegistry.ResolveTwice | ref-UTC/src/test/java/javax/time/calendar/TestTimeZone.java:193-199 | resolving an identifier twice gives the same object, or the same error |
| Registry.ZoneRegistry.ResolveZeroSpelling | ref-UTC/src/test/java/javax/time/calendar/TestTimeZone.java:144-154 | `UTC` followed by any spelling of zero resolves to the UTC constant |
| Registry.ZoneRegistry.CachedZonesDistinct | ref-UTC/src/test/java/javax/time/calendar/TestTimeZone.java:688-702 | two cached zones are the same object exactly when their keys are equal, and then their identifiers are equal |
| Fixtures.SeasonalOffset | ref-UTC/src/test/java/javax/time/calendar/TestTimeZone.java:212-225 | in a zone with one change forward and one back, an instant before the first change has the initial offset, one between them the summer offset, and one after the second the offset after it |
| Fixtures.SeasonalInfo | ref-UTC/src/test/java/javax/time/calendar/TestTimeZone.java:258-272 | in such a zone, a local timestamp outside both windows is definite, with the offset of the season it falls in |
| Fixtures.LondonOffsetCutover | ref-UTC/src/test/java/javax/time/calendar/TestTimeZone.java:238-255 | London's offset changes at 01:00Z on 30 March and 26 October and not a nanosecond earlier |
| Fixtures.ParisOffsetCutover | ref-UTC/src/test/java/javax/time/calendar/TestTimeZone.java:385-402 | Paris's offset changes at the same instants, +01:00 to +02:00 and back |
| Fixtures.NewYorkOffsetCutover | ref-UTC/src/test/java/javax/time/calendar/TestTimeZone.java:545-562 | New York's offset changes at 02:00 local time on 9 March and 2 November |
| Fixtures.LondonMonthly | ref-UTC/src/test/java/javax/time/calendar/TestTimeZone.java:212-272 | London on the first of each month is GMT from November to March and +01:00 from April to October, both at the UTC instant and at the local time |
| Fixtures.LondonDaily | ref-UTC/src/test/java/javax/time/calendar/TestTimeZone.java:274-298 | London at midnight from 24 to 31 March and from 24 to 31 October has the offset of the season the day falls in |
| Fixtures.ParisDaily | ref-UTC/src/test/java/javax/time/calendar/TestTimeZone.java:375-399 | Paris at midnight UTC and at local midnight from 24 to 31 March and from 24 to 31 October has the offset of the season the day falls in |
| Fixtures.NewYorkDaily | ref-UTC/src/test/java/javax/time/calendar/TestTimeZone.java:535-559 | New York at midnight -05:00 from 8 to 14 March, at midnight -04:00 from 1 to 7 November, and at local midnight on those days, has the offset of the season the day falls in |
| Fixtures.ParisMonthly | ref-UTC/src/test/java/javax/time/calendar/TestTimeZone.java:405-419 | Paris on the first of each month is +01:00 or +02:00 by season, at the UTC instant and at the local time |
| Fixtures.NewYorkMonthly | ref-UTC/src/test/java/javax/time/calendar/TestTimeZone.java:506-591 | New York on the 1st and 28th of each month is -05:00 or -04:00 by season, 1 November still being -04:00 |
| Fixtures.LondonGap | ref-UTC/src/test/java/javax/time/calendar/TestTimeZone.java:304-321 | local 01:00 on 30 March is a gap from Z to +01:00 at 01:00Z; the estimate is +01:00 and neither side is valid |
| Fixtures.LondonOverlap | ref-UTC/src/test/java/javax/time/calendar/TestTimeZone.java:325-344 | local 01:00 on 26 October is an overlap from +01:00 to Z at 01:00Z; the estimate is Z, and exactly Z and +01:00 are valid |
| Fixtures.LondonAroundChanges | ref-UTC/src/test/java/javax/time/calendar/TestTimeZone.java:284-301 | the last nanosecond before each London window and 02:00 after it are definite, with the offset on that side |
| Fixtures.ParisGap | ref-UTC/src/test/java/javax/time/calendar/TestTimeZone.java:431-468 | Paris's gap is local [02:00, 03:00) on 30 March, from +01:00 to +02:00 |
| Fixtures.ParisOverlap | ref-UTC/src/test/java/javax/time/calendar/TestTimeZone.java:446-491 | Paris's overlap is local [02:00, 03:00) on 26 October, where +01:00 and +02:00 are valid |
| Fixtures.NewYorkGapAndOverlap | ref-UTC/src/test/java/javax/time/calendar/TestTimeZone.java:602-661 | New York's gap at local 02:00 on 9 March and its overlap at local 01:00 on 2 November, with their offsets, instants, estimates and valid offsets, and definite times on either side |
| Fixtures.LondonGapText | ref-UTC/src/test/java/javax/time/calendar/TestTimeZone.java:322 | `Discontinuity[Gap from Z to +01:00]` |
| Fixtures.LondonOverlapText | ref-UTC/src/test/java/javax/time/calendar/TestTimeZone.java:345 | `Discontinuity[Overlap from +01:00 to Z]` |
| Fixtures.ParisGapText | ref-UTC/src/test/java/javax/time/calendar/TestTimeZone.java:469 | `Discontinuity[Gap from +01:00 to +02:00]` |
| Fixtures.ParisOverlapText | ref-UTC/src/test/java/javax/time/calendar/TestTimeZone.java:492 | `Discontinuity[Overlap from +02:00 to +01:00]` |
| Fixtures.NewYorkGapText | ref-UTC/src/test/java/javax/time/calendar/TestTimeZone.java:639 | `Discontinuity[Gap from -05:00 to -04:00]` |
| Fixtures.NewYorkOverlapText | ref-UTC/src/test/java/javax/time/calendar/TestTimeZone.java:662 | `Discontinuity[Overlap from -04:00 to -05:00]` |
| Fixtures.FixedZoneIds | ref-UTC/src/test/java/javax/time/calendar/TestTimeZone.java:718-721 | the zero offset's zone is `UTC`; `UTC+01:02:03` names the offset 1:02:03 and is its own canonical identifier |
| Fixtures.ZeroTextsParse | ref-UTC/src/test/java/javax/time/calendar/TestTimeZone.java:144-154 | each of the eleven spellings of zero in the suite parses to zero |
| Fixtures.ZeroSpellings | ref-UTC/src/test/java/javax/time/calendar/TestTimeZone.java:144-154 | each of the eleven spellings of zero after `UTC` leads to the UTC zone |
| Fixtures.InvalidSuffixes | ref-UTC/src/test/java/javax/time/calendar/TestTimeZone.java:156-180 | each of the suite's malformed or out-of-range suffixes after `UTC` is a format error |
| Fixtures.LettersRejected | ref-UTC/src/test/java/javax/time/calendar/TestTimeZone.java:158-159 | the single letters `A` to `Y` and `ZZ` do not parse |
| Fixtures.ShortPositiveRejected | ref-UTC/src/test/java/javax/time/calendar/TestTimeZone.java:160-162 | positive texts with a one-digit field do not parse |
| Fixtures.ShortNegativeRejected | ref-UTC/src/test/java/javax/time/calendar/TestTimeZone.java:165-167 | negative texts with a one-digit field do not parse |
| Fixtures.BadPositiveRejected | ref-UTC/src/test/java/javax/time/calendar/TestTimeZone.java:163 | positive texts with a wrong separator or letters in a field do not parse |
| Fixtures.BadNegativeRejected | ref-UTC/src/test/java/javax/time/calendar/TestTimeZone.java:169-170 | negative texts with a wrong separator or letters in a field, and a text without a sign, do not parse |
| Fixtures.LargePositiveRejected | ref-UTC/src/test/java/javax/time/calendar/TestTimeZone.java:164 | positive texts beyond +18:00 do not parse |
| Fixtures.LargeNegativeRejected | ref-UTC/src/test/java/javax/time/calendar/TestTimeZone.java:168 | negative texts beyond -18:00 do not parse |
| Fixtures.UtcScenario | ref-UTC/src/test/java/javax/time/calendar/TestTimeZone.java:127-140 | `UTC` and the zero offset both resolve to the UTC constant; it has identifier `UTC` and fixed rules, offset zero at every instant, and resolves every local time definitely to zero |
| Fixtures.UnknownIdentifier | ref-UTC/src/test/java/javax/time/calendar/TestTimeZone.java:187-190 | `Unknown`, absent from the catalogue, is an unknown zone |
| Fixtures.NewYorkScenario | ref-UTC/src/test/java/javax/time/calendar/TestTimeZone.java:498-503 | `America/New_York` resolves to a zone whose identifier is that name, with New York's rules, and which is not fixed |
| Fixtures.RejectionScenario | ref-UTC/src/test/java/javax/time/calendar/TestTimeZone.java:182-190 | a null identifier is a null-argument error and `Unknown` an unknown-zone error, neither changing the registry |
| Fixtures.EqualityScenario | ref-UTC/src/test/java/javax/time/calendar/TestTimeZone.java:688-702 | London and Paris resolve to different objects, and Paris resolved twice to the same one, each with its identifier and rules |

## Left out

- The parser accepts `Z` and the signed layouts `±HH`, `±HHMM`, `±HH:MM`, `±HHMMSS` and `±HH:MM:SS` (lengths 3, 5, 6, 7 and 9). The suite's accepted and rejected suffixes agree with it. No other offset syntax is modelled.
- A `GMT` prefix for fixed zones is not modelled. No assertion in the suite exercises it.
- The rule provider's data is not modelled. Region zones come from a catalogue parameter. Only the three 2008 fixtures are spelled out, each reduced to the two changes of that year.
- Transition lists are required to be well formed (`Resolution.Chained`): offsets chain, they really change, and instants strictly increase. The model also requires each transition's local window to end no later than the next one's begins. That is a restriction of this model, not a guarantee of the rule provider. It excludes transitions closer together than their offset change, and so any local time lying in two windows.
- Object serialization is reduced to its effect, `Registry.ZoneRegistry.Reload`. Writing and reading byte streams is not modelled.
- The reflective immutability check (lines 66-77) and the `Serializable` marker check (lines 62-64) concern Java class metadata. Zones here are immutable by construction: their fields are `const`.
- Names and short names (`getName`, `getShortName`) are not modelled. The suite only shows them equal to the identifier.
- The `isFixed` flag is not a separate member. It is the `Fixed?` discriminator of `Resolution.ZoneRules`.
- Calendar arithmetic is not modelled. The test's dates are converted to nanosecond time-line points by day-of-year constants in `Fixtures`.
- The commented-out tests (`containsOffset`, `toTimeZone`, `compareTo`) are not modelled. `equals` with null or with a string has no counterpart here.
- Thread safety of the shared cache is not modelled. Registry calls are sequential.
- A zone's `toString` is its identifier. The `toString` test is therefore stated over `Zone.id`.
