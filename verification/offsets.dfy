/** The offset codec: the text that follows "UTC" in a fixed zone identifier,
    parsed into a signed count of seconds and formatted back.

    Accepted texts are `Z` and a sign followed by two-digit fields in one of
    the layouts HH, HHMM, HH:MM, HHMMSS, HH:MM:SS. Hours may not exceed 18,
    minutes and seconds may not exceed 59, and the magnitude may not exceed
    18:00. Everything else is a FormatError. */
module Offsets {
  import opened ZoneErrors

  const SecondsPerMinute := 60
  const SecondsPerHour := 3600
  /** The largest offset magnitude, 18:00. */
  const MaxOffsetSeconds := 18 * 3600

  /** A fixed offset from UTC, in seconds. */
  type Offset = s: int | -MaxOffsetSeconds <= s <= MaxOffsetSeconds

  predicate IsDigit(c: char) {
    '0' <= c <= '9'
  }

  function DigitValue(c: char): (d: nat)
    requires IsDigit(c)
    ensures d < 10
  {
    (c as int) - ('0' as int)
  }

  function DigitChar(d: nat): (c: char)
    requires d < 10
    ensures IsDigit(c) && DigitValue(c) == d
  {
    ('0' as int + d) as char
  }

  lemma DigitCharOfValue(c: char)
    requires IsDigit(c)
    ensures DigitChar(DigitValue(c)) == c
  {
  }

  /** A number below 100 as exactly two decimal digits. */
  function TwoDigits(n: nat): (s: string)
    requires n < 100
    ensures |s| == 2 && IsDigit(s[0]) && IsDigit(s[1])
    ensures DigitValue(s[0]) * 10 + DigitValue(s[1]) == n
  {
    [DigitChar(n / 10), DigitChar(n % 10)]
  }

  /** Two digit characters read as a number print back as themselves. */
  lemma TwoDigitsOfValue(c0: char, c1: char)
    requires IsDigit(c0) && IsDigit(c1)
    ensures TwoDigits(DigitValue(c0) * 10 + DigitValue(c1)) == [c0, c1]
  {
    var n := DigitValue(c0) * 10 + DigitValue(c1);
    assert n / 10 == DigitValue(c0) && n % 10 == DigitValue(c1);
    DigitCharOfValue(c0);
    DigitCharOfValue(c1);
  }

  // ---------------------------------------------------------------------
  // The grammar, stated declaratively: every accepted text is the Text of
  // some well-formed, in-range Spelling.
  // ---------------------------------------------------------------------

  /** Which fields a signed offset text carries, and whether a colon
      separates them. */
  datatype Layout = Hours | HoursMinutes(colons: bool) | HoursMinutesSeconds(colons: bool)

  /** One way of writing an offset: `Z`, or a sign and two-digit fields. */
  datatype Spelling =
    | Zulu
    | Signed(negative: bool, hours: nat, minutes: nat, seconds: nat, layout: Layout)

  /** Every field fits in two digits and the fields the layout omits are zero. */
  predicate WellFormedSpelling(sp: Spelling) {
    sp.Signed? ==>
      && sp.hours < 100 && sp.minutes < 100 && sp.seconds < 100
      && (sp.layout.Hours? ==> sp.minutes == 0 && sp.seconds == 0)
      && (sp.layout.HoursMinutes? ==> sp.seconds == 0)
  }

  function Magnitude(sp: Spelling): nat
    requires sp.Signed?
  {
    sp.hours * SecondsPerHour + sp.minutes * SecondsPerMinute + sp.seconds
  }

  /** The field ranges and the 18:00 bound. */
  predicate InRange(sp: Spelling) {
    sp.Signed? ==>
      && sp.hours <= 18 && sp.minutes <= 59 && sp.seconds <= 59
      && Magnitude(sp) <= MaxOffsetSeconds
  }

  /** The signed number of seconds a spelling denotes. */
  function Value(sp: Spelling): int {
    match sp
    case Zulu => 0
    case Signed(negative, _, _, _, _) =>
      var m: int := Magnitude(sp);
      if negative then -m else m
  }

  function Separator(colons: bool): string {
    if colons then ":" else ""
  }

  /** The characters of a spelling. */
  function Text(sp: Spelling): string
    requires WellFormedSpelling(sp)
  {
    match sp
    case Zulu => "Z"
    case Signed(negative, h, m, s, layout) =>
      var head := [if negative then '-' else '+'] + TwoDigits(h);
      match layout
      case Hours => head
      case HoursMinutes(c) => head + Separator(c) + TwoDigits(m)
      case HoursMinutesSeconds(c) => head + Separator(c) + TwoDigits(m) + Separator(c) + TwoDigits(s)
  }

  // ---------------------------------------------------------------------
  // The parser.
  // ---------------------------------------------------------------------

  /** The two digits at `pos`; when `afterColon`, the character before them
      must be a colon. */
  function ParseField(text: string, pos: nat, afterColon: bool): (r: Result<nat>)
    requires 1 <= pos && pos + 2 <= |text|
    ensures r.Ok? <==> (!afterColon || text[pos - 1] == ':') && IsDigit(text[pos]) && IsDigit(text[pos + 1])
    ensures r.Ok? ==> r.value < 100 && TwoDigits(r.value) == text[pos..pos + 2]
    ensures r.Err? ==> r.error == FormatError
  {
    if afterColon && text[pos - 1] != ':' then Err(FormatError)
    else if !IsDigit(text[pos]) || !IsDigit(text[pos + 1]) then Err(FormatError)
    else
      TwoDigitsOfValue(text[pos], text[pos + 1]);
      Ok(DigitValue(text[pos]) * 10 + DigitValue(text[pos + 1]))
  }

  /** The field reader returns exactly the number whose two digits stand at `pos`. */
  lemma ParseFieldOf(text: string, pos: nat, afterColon: bool, n: nat)
    requires 1 <= pos && pos + 2 <= |text| && n < 100
    requires text[pos..pos + 2] == TwoDigits(n)
    requires !afterColon || text[pos - 1] == ':'
    ensures ParseField(text, pos, afterColon) == Ok(n)
  {
    assert text[pos] == TwoDigits(n)[0] && text[pos + 1] == TwoDigits(n)[1];
  }

  /** Range-checks the parsed fields and applies the sign to all of them. */
  function FromFields(negative: bool, hours: nat, minutes: nat, seconds: nat): (r: Result<Offset>)
    ensures r.Err? ==> r.error == FormatError
  {
    if hours > 18 || minutes > 59 || seconds > 59 then Err(FormatError)
    else
      var total := hours * SecondsPerHour + minutes * SecondsPerMinute + seconds;
      if total > MaxOffsetSeconds then Err(FormatError)
      else if negative then Ok(-total) else Ok(total)
  }

  /** The lengths, sign included, of the signed layouts: 3 is HH, 5 is HHMM,
      6 is HH:MM, 7 is HHMMSS and 9 is HH:MM:SS. */
  predicate IsSignedLength(n: nat) {
    n == 3 || n == 5 || n == 6 || n == 7 || n == 9
  }

  function LayoutOfLength(n: nat): Layout
    requires IsSignedLength(n)
  {
    if n == 3 then Hours
    else if n == 5 || n == 6 then HoursMinutes(n == 6)
    else HoursMinutesSeconds(n == 9)
  }

  /** The unsigned hours, minutes and seconds fields of a signed text. */
  datatype Fields = Fields(hours: nat, minutes: nat, seconds: nat)

  /** Reads the fields the text's length calls for; absent fields are zero. */
  function ReadFields(text: string): (r: Result<Fields>)
    requires IsSignedLength(|text|)
    ensures r.Err? ==> r.error == FormatError
    ensures r.Ok? ==> r.value.hours < 100 && r.value.minutes < 100 && r.value.seconds < 100
  {
    var colons := |text| == 6 || |text| == 9;
    var hours :- ParseField(text, 1, false);
    var minutes :- if |text| == 3 then Ok(0) else ParseField(text, if colons then 4 else 3, colons);
    var seconds :- if |text| <= 6 then Ok(0) else ParseField(text, if colons then 7 else 5, colons);
    Ok(Fields(hours, minutes, seconds))
  }

  /** Parses the text that follows "UTC" in a fixed zone identifier. */
  function ParseOffset(text: string): (r: Result<Offset>)
    ensures r.Err? ==> r.error == FormatError
  {
    if text == "Z" then Ok(0)
    else if !IsSignedLength(|text|) then Err(FormatError)
    else if text[0] != '+' && text[0] != '-' then Err(FormatError)
    else
      var f :- ReadFields(text);
      FromFields(text[0] == '-', f.hours, f.minutes, f.seconds)
  }

  /** The middle part of a concatenation is where it was put. */
  lemma SliceOfConcat(a: string, b: string, c: string)
    ensures (a + b + c)[|a|..|a| + |b|] == b
  {
    var s := a + b + c;
    forall k | 0 <= k < |b|
      ensures s[|a|..|a| + |b|][k] == b[k]
    {
      assert s[|a| + k] == b[k];
    }
  }

  /** Where each field of a signed spelling stands in its text. */
  lemma TextAt(sp: Spelling)
    requires WellFormedSpelling(sp) && sp.Signed?
    ensures var text, colons := Text(sp), sp.layout != Hours && sp.layout.colons;
      && IsSignedLength(|text|) && LayoutOfLength(|text|) == sp.layout
      && (|text| == 6 || |text| == 9 <==> colons)
      && text[0] == (if sp.negative then '-' else '+')
      && text[1..3] == TwoDigits(sp.hours)
      && (sp.layout != Hours ==> text[(if colons then 4 else 3)..(if colons then 6 else 5)] == TwoDigits(sp.minutes))
      && (sp.layout.HoursMinutesSeconds? ==> text[(if colons then 7 else 5)..(if colons then 9 else 7)] == TwoDigits(sp.seconds))
      && (colons ==> text[3] == ':')
      && (colons && sp.layout.HoursMinutesSeconds? ==> text[6] == ':')
  {
    var sign := [if sp.negative then '-' else '+'];
    var h, m, sec := TwoDigits(sp.hours), TwoDigits(sp.minutes), TwoDigits(sp.seconds);
    SliceOfConcat(sign, h, []);
    assert sign + h + [] == sign + h;
    match sp.layout
    case Hours =>
    case HoursMinutes(c) =>
      var sep := Separator(c);
      SliceOfConcat(sign, h, sep + m);
      assert sign + h + (sep + m) == sign + h + sep + m;
      SliceOfConcat(sign + h + sep, m, []);
      assert sign + h + sep + m + [] == sign + h + sep + m;
    case HoursMinutesSeconds(c) =>
      var sep := Separator(c);
      SliceOfConcat(sign, h, sep + m + sep + sec);
      assert sign + h + (sep + m + sep + sec) == sign + h + sep + m + sep + sec;
      SliceOfConcat(sign + h + sep, m, sep + sec);
      assert sign + h + sep + m + (sep + sec) == sign + h + sep + m + sep + sec;
      SliceOfConcat(sign + h + sep + m + sep, sec, []);
      assert sign + h + sep + m + sep + sec + [] == sign + h + sep + m + sep + sec;
  }

  /** The fields of a spelling's text are read back as the spelling's fields. */
  lemma ReadFieldsOfText(sp: Spelling)
    requires WellFormedSpelling(sp) && sp.Signed?
    ensures IsSignedLength(|Text(sp)|) && LayoutOfLength(|Text(sp)|) == sp.layout
    ensures Text(sp)[0] == (if sp.negative then '-' else '+')
    ensures ReadFields(Text(sp)) == Ok(Fields(sp.hours, sp.minutes, sp.seconds))
  {
    var text := Text(sp);
    TextAt(sp);
    ParseFieldOf(text, 1, false, sp.hours);
    match sp.layout
    case Hours =>
    case HoursMinutes(c) =>
      ParseFieldOf(text, if c then 4 else 3, c, sp.minutes);
    case HoursMinutesSeconds(c) =>
      ParseFieldOf(text, if c then 4 else 3, c, sp.minutes);
      ParseFieldOf(text, if c then 7 else 5, c, sp.seconds);
  }

  /** Completeness and range rejection: the text of every well-formed
      spelling parses to its value exactly when the spelling is in range. */
  lemma ParseAccepts(sp: Spelling)
    requires WellFormedSpelling(sp)
    ensures InRange(sp) ==> ParseOffset(Text(sp)).Ok? && ParseOffset(Text(sp)).value == Value(sp)
    ensures !InRange(sp) ==> ParseOffset(Text(sp)) == Err(FormatError)
  {
    if sp.Signed? {
      ReadFieldsOfText(sp);
      assert Text(sp) != "Z";
    }
  }

  /** Two strings that agree on a slice agree at each of its positions. */
  lemma AgreeOn(s: string, u: string, i: nat, j: nat)
    requires i <= j <= |s| && j <= |u| && s[i..j] == u[i..j]
    ensures forall k | i <= k < j :: s[k] == u[k]
  {
    forall k | i <= k < j
      ensures s[k] == u[k]
    {
      assert s[i..j][k - i] == u[i..j][k - i];
    }
  }

  /** A text whose fields were read is the text of the spelling made of them. */
  lemma TextOfReadFields(text: string)
    requires IsSignedLength(|text|) && (text[0] == '+' || text[0] == '-')
    requires ReadFields(text).Ok?
    ensures var f := ReadFields(text).value;
      var sp := Signed(text[0] == '-', f.hours, f.minutes, f.seconds, LayoutOfLength(|text|));
      WellFormedSpelling(sp) && Text(sp) == text
  {
    var n := |text|;
    var colons := n == 6 || n == 9;
    var f := ReadFields(text).value;
    var sp := Signed(text[0] == '-', f.hours, f.minutes, f.seconds, LayoutOfLength(n));
    assert WellFormedSpelling(sp);
    var t := Text(sp);
    TextAt(sp);
    assert |t| == n;
    AgreeOn(t, text, 1, 3);
    if n >= 5 {
      var p := if colons then 4 else 3;
      AgreeOn(t, text, p, p + 2);
    }
    if n >= 7 {
      var q := if colons then 7 else 5;
      AgreeOn(t, text, q, q + 2);
    }
    assert forall k | 0 <= k < n :: t[k] == text[k];
  }

  /** Soundness: whatever the parser accepts is the text of a well-formed,
      in-range spelling of the value it returns. */
  lemma ParseOnlySpellings(text: string)
    requires ParseOffset(text).Ok?
    ensures exists sp :: WellFormedSpelling(sp) && InRange(sp) && Text(sp) == text && Value(sp) == ParseOffset(text).value
  {
    if text == "Z" {
      assert WellFormedSpelling(Zulu) && InRange(Zulu) && Text(Zulu) == text && Value(Zulu) == 0;
    } else {
      TextOfReadFields(text);
      var f := ReadFields(text).value;
      var sp := Signed(text[0] == '-', f.hours, f.minutes, f.seconds, LayoutOfLength(|text|));
      assert WellFormedSpelling(sp) && InRange(sp) && Text(sp) == text && Value(sp) == ParseOffset(text).value;
    }
  }

  // ---------------------------------------------------------------------
  // The formatter.
  // ---------------------------------------------------------------------

  /** The canonical way of writing an offset: `Z` for zero, otherwise
      colon-separated hours and minutes, with seconds only when non-zero. */
  function CanonicalSpelling(o: Offset): (sp: Spelling)
    ensures WellFormedSpelling(sp) && InRange(sp) && Value(sp) == o
    ensures sp.Zulu? <==> o == 0
    ensures sp.Signed? ==> sp.layout == if o % SecondsPerMinute == 0 then HoursMinutes(true) else HoursMinutesSeconds(true)
  {
    if o == 0 then Zulu
    else
      var magnitude := if o < 0 then -o else o;
      var seconds := magnitude % SecondsPerMinute;
      assert seconds == 0 <==> o % SecondsPerMinute == 0;
      Signed(o < 0, magnitude / SecondsPerHour, magnitude % SecondsPerHour / SecondsPerMinute, seconds,
             if seconds == 0 then HoursMinutes(true) else HoursMinutesSeconds(true))
  }

  /** The text form of an offset: `Z`, `+01:00`, `+01:02:03`. */
  function FormatOffset(o: Offset): (text: string)
    ensures text == "Z" <==> o == 0
    ensures o != 0 ==> (|text| == 6 <==> o % SecondsPerMinute == 0) && (|text| == 6 || |text| == 9)
    ensures ' ' !in text
  {
    var sp := CanonicalSpelling(o);
    TextLength(sp);
    TextHasNoSpace(sp);
    Text(sp)
  }

  /** A spelling is written with a sign, digits and colons, or `Z`, and so
      never contains a space. */
  lemma TextHasNoSpace(sp: Spelling)
    requires WellFormedSpelling(sp)
    ensures ' ' !in Text(sp)
  {
    if sp.Signed? {
      var h, m, sec := TwoDigits(sp.hours), TwoDigits(sp.minutes), TwoDigits(sp.seconds);
      assert ' ' !in h && ' ' !in m && ' ' !in sec;
    }
  }

  /** Round trip: parsing the text form of an offset gives the offset back. */
  lemma ParseFormat(o: Offset)
    ensures ParseOffset(FormatOffset(o)) == Ok(o)
  {
    ParseAccepts(CanonicalSpelling(o));
  }

  lemma TextLength(sp: Spelling)
    requires WellFormedSpelling(sp)
    ensures |Text(sp)| == match sp
      case Zulu => 1
      case Signed(_, _, _, _, layout) => match layout
        case Hours => 3
        case HoursMinutes(c) => if c then 6 else 5
        case HoursMinutesSeconds(c) => if c then 9 else 7
  {
  }

  /** Distinct offsets have distinct text forms. */
  lemma FormatInjective(o1: Offset, o2: Offset)
    requires FormatOffset(o1) == FormatOffset(o2)
    ensures o1 == o2
  {
    ParseFormat(o1);
    ParseFormat(o2);
  }
}
