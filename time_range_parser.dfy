/** The 24-hour time-range label of a scene name, `(H[:MM]h-H[:MM]h)` at the
    very end of the name, and the inclusive range test. The regular
    expression of the source is replaced by a recognizer for its one fixed
    pattern. `utils.rs` holds the same logic as free functions, which
    build the same pattern with `Regex::new` on every call instead of
    keeping it in a field; since the results agree, this module models both
    files. */
module TimeRangeParser {
  import opened Text

  /** `(start, end)` in minutes after midnight. */
  type TimeRange = (nat, nat)

  /** The largest value a label can denote: 24:59. */
  const MAX_MINUTES: nat := 24 * 60 + 59

  // ---- matches_time_range ----

  /** Inclusive at both ends; `start >= end` wraps past midnight. */
  predicate MatchesTimeRange(range: TimeRange, value: nat)
  {
    if range.0 < range.1 then range.0 <= value && value <= range.1
    else value >= range.0 || value <= range.1
  }

  /** On a clock face of `day` positions, a range with distinct ends
      matches exactly the positions met walking forward from `start` to
      `end`, ends included; a range whose ends coincide matches every
      position. */
  lemma MatchesIsClockArc(range: TimeRange, value: nat, day: nat)
    requires range.0 < day && range.1 < day && value < day
    ensures range.0 != range.1 ==>
      (MatchesTimeRange(range, value) <==>
       (value - range.0) % day <= (range.1 - range.0) % day)
    ensures range.0 == range.1 ==> MatchesTimeRange(range, value)
  {
    var (s, e) := range;
    ModOfSmall(value - s, day);
    ModOfSmall(e - s, day);
  }

  lemma ModOfSmall(x: int, day: nat)
    requires -(day as int) < x < day
    ensures x >= 0 ==> x % day == x
    ensures x < 0 ==> x % day == x + day
  {
    if x < 0 {
      assert (x + day) % day == x % day;
    }
  }

  /** A range and its reverse share their two ends and split every other
      value between them. */
  lemma MatchesReversed(range: TimeRange, value: nat)
    requires range.0 != range.1
    ensures MatchesTimeRange(range, range.0) && MatchesTimeRange(range, range.1)
    ensures value != range.0 && value != range.1 ==>
      (MatchesTimeRange(range, value) <==> !MatchesTimeRange((range.1, range.0), value))
  {
  }

  lemma MatchesExamples()
    ensures MatchesTimeRange((600, 1200), 720)
    ensures MatchesTimeRange((600, 1200), 600)
    ensures MatchesTimeRange((720, 360), 1200)
    ensures !MatchesTimeRange((720, 360), 480)
    ensures MatchesTimeRange((1200, 720), 1260)
    ensures MatchesTimeRange((1200, 720), 600)
    ensures !MatchesTimeRange((1200, 720), 780)
  {
  }

  // ---- extract_minutes ----

  /** `"H"` or `"H:M"` to `H * 60 + M`; `Err` for a part that is not a
      `u32`, minutes above 59 or hours above 24; `Ok(None)` for three or
      more `:`-separated parts. Hours are parsed before minutes. */
  function ExtractMinutes(s: string): (r: Result<Option<nat>>)
    ensures r == Ok(None) <==> Count(s, ':') >= 2
    ensures r.Ok? && r.value.Some? ==> r.value.value <= MAX_MINUTES
  {
    var parts := Split(s, ':');
    if 0 < |parts| < 3 then
      match ParseU32(parts[0])
      case None => Err
      case Some(hours) =>
        match (if |parts| > 1 then ParseU32(parts[1]) else Some(0))
        case None => Err
        case Some(minutes) =>
          if minutes > 59 || hours > 24 then Err else Ok(Some(hours * 60 + minutes))
    else Ok(None)
  }

  /** The value a clock text denotes, defined on its digit groups directly:
      `Some(hours * 60 + minutes)` within bounds, `None` outside them. */
  function ClockValue(hours: string, minutes: string): (r: Option<nat>)
    requires hours != [] && AllDigits(hours) && AllDigits(minutes)
  {
    var h := DigitsValue(hours);
    var m := DigitsValue(minutes);
    if h <= 24 && m <= 59 then Some(h * 60 + m) else None
  }

  /** `ExtractMinutes` on `"H:MM"` agrees with `ClockValue`. */
  lemma ExtractMinutesHoursMinutes(hours: string, minutes: string)
    requires hours != [] && AllDigits(hours)
    requires minutes != [] && AllDigits(minutes)
    ensures ExtractMinutes(hours + ":" + minutes) ==
      if ClockValue(hours, minutes).Some? then Ok(Some(ClockValue(hours, minutes).value)) else Err
  {
    SplitClock(hours, minutes);
    ParseDigitGroup(hours);
    ParseDigitGroup(minutes);
  }

  /** A digit group parses to its value, or is refused when it overflows. */
  lemma ParseDigitGroup(s: string)
    requires s != [] && AllDigits(s)
    ensures ParseU32(s) == if DigitsValue(s) <= U32_MAX then Some(DigitsValue(s)) else None
  {
    if DigitsValue(s) <= U32_MAX {
      ParseDigits(s);
    } else {
      ParseDigitsOverflow(s);
    }
  }

  lemma SplitClock(hours: string, minutes: string)
    requires AllDigits(hours) && AllDigits(minutes)
    ensures Split(hours + ":" + minutes, ':') == [hours, minutes]
  {
    assert ':' !in hours;
    assert ':' !in minutes;
    SplitPair(hours, minutes);
  }

  lemma SplitPair(hours: string, minutes: string)
    requires ':' !in hours && ':' !in minutes
    ensures Split(hours + ":" + minutes, ':') == [hours, minutes]
  {
    assert hours + ":" + minutes == hours + [':'] + minutes;
    SplitCons(hours, minutes, ':');
    SplitNoSep(minutes, ':');
  }

  /** `ExtractMinutes` on `"H"` agrees with `ClockValue` at zero minutes. */
  lemma ExtractMinutesHours(hours: string)
    requires hours != [] && AllDigits(hours)
    ensures ExtractMinutes(hours) ==
      if ClockValue(hours, "").Some? then Ok(Some(ClockValue(hours, "").value)) else Err
  {
    assert ':' !in hours;
    SplitNoSep(hours, ':');
    ParseDigitGroup(hours);
  }

  lemma OneDigitValue(s: string)
    requires |s| == 1 && AllDigits(s)
    ensures DigitsValue(s) == s[0] as int - '0' as int
  {
    assert s[..0] == [];
  }

  lemma TwoDigitsValue(s: string)
    requires |s| == 2 && AllDigits(s)
    ensures DigitsValue(s) == (s[0] as int - '0' as int) * 10 + (s[1] as int - '0' as int)
  {
    assert s[..1] == [s[0]];
    OneDigitValue(s[..1]);
  }

  /** The examples of the doc comment on `extract_minutes`, one lemma each. */
  lemma ExtractMinutesExampleHoursMinutes()
    ensures ExtractMinutes("12:23") == Ok(Some(743))
  {
    TwoDigitsValue("12");
    TwoDigitsValue("23");
    ExtractMinutesHoursMinutes("12", "23");
    assert "12:23" == "12" + ":" + "23";
  }

  lemma ExtractMinutesExampleHours()
    ensures ExtractMinutes("12") == Ok(Some(720))
  {
    TwoDigitsValue("12");
    ExtractMinutesHours("12");
  }

  lemma ExtractMinutesExampleMidnight()
    ensures ExtractMinutes("0:00") == Ok(Some(0))
  {
    OneDigitValue("0");
    TwoDigitsValue("00");
    ExtractMinutesHoursMinutes("0", "00");
    assert "0:00" == "0" + ":" + "00";
  }

  /** Minutes above 59 and hours above 24 are errors. */
  lemma ExtractMinutesOutOfBounds()
    ensures ExtractMinutes("12:60") == Err
    ensures ExtractMinutes("25") == Err
  {
    TwoDigitsValue("12");
    TwoDigitsValue("60");
    TwoDigitsValue("25");
    ExtractMinutesHoursMinutes("12", "60");
    assert "12:60" == "12" + ":" + "60";
    ExtractMinutesHours("25");
  }

  /** A text without ':' that `parse::<u32>` refuses is an error: the `?`
      of the hours parse. */
  lemma ExtractMinutesUnparsableHours(hours: string)
    requires ':' !in hours && ParseU32(hours) == None
    ensures ExtractMinutes(hours) == Err
  {
    SplitNoSep(hours, ':');
  }

  /** `H:M` where either part is refused by `parse::<u32>` is an error: the
      `?` of either parse. */
  lemma ExtractMinutesUnparsablePair(hours: string, minutes: string)
    requires ':' !in hours && ':' !in minutes
    requires ParseU32(hours) == None || ParseU32(minutes) == None
    ensures ExtractMinutes(hours + ":" + minutes) == Err
  {
    SplitPair(hours, minutes);
  }

  /** In particular a text without ':' that is empty, carries a second sign
      or holds anything but ASCII digits after at most one '+' is an error. */
  lemma ExtractMinutesMalformedHours(hours: string)
    requires ':' !in hours && !U32Syntax(hours)
    ensures ExtractMinutes(hours) == Err
  {
    ParseU32Syntax(hours);
    ExtractMinutesUnparsableHours(hours);
  }

  /** And so is `H:M` where either part is malformed in that way. */
  lemma ExtractMinutesMalformedPair(hours: string, minutes: string)
    requires ':' !in hours && ':' !in minutes
    requires !U32Syntax(hours) || !U32Syntax(minutes)
    ensures ExtractMinutes(hours + ":" + minutes) == Err
  {
    ParseU32Syntax(hours);
    ParseU32Syntax(minutes);
    ExtractMinutesUnparsablePair(hours, minutes);
  }

  /** The examples "1a" (not a number) and "1:2:3" (more than two parts, not a time). */
  lemma ExtractMinutesMalformed()
    ensures ExtractMinutes("1a") == Err
    ensures ExtractMinutes("1:2:3") == Ok(None)
  {
    SplitNoSep("1a", ':');
    assert Count("1:2:3", ':') == 2;
  }

  // ---- the pattern \((?<start>\d{1,2}(:\d{2})?)h-(?<end>\d{1,2}(:\d{2})?)h\)$ ----

  /** `\d{1,2}(:\d{2})?`, matched against the whole of `x`. */
  predicate IsTimeLiteral(x: string) {
    || (1 <= |x| <= 2 && AllDigits(x))
    || (4 <= |x| <= 5 && x[|x| - 3] == ':' && AllDigits(x[..|x| - 3]) && AllDigits(x[|x| - 2..]))
  }

  /** The hour digits of a time literal. */
  function LiteralHours(x: string): string
    requires IsTimeLiteral(x)
  {
    if |x| <= 2 then x else x[..|x| - 3]
  }

  /** The minute digits of a time literal; empty when it has none. */
  function LiteralMinutes(x: string): string
    requires IsTimeLiteral(x)
  {
    if |x| <= 2 then "" else x[|x| - 2..]
  }

  /** The minutes a time literal denotes, if it is within bounds. */
  function LiteralValue(x: string): Option<nat>
    requires IsTimeLiteral(x)
  {
    ClockValue(LiteralHours(x), LiteralMinutes(x))
  }

  lemma LiteralShape(x: string)
    requires IsTimeLiteral(x)
    ensures 'h' !in x && '(' !in x && ')' !in x && '-' !in x
  {
    if |x| > 2 {
      assert x == x[..|x| - 3] + [':'] + x[|x| - 2..];
      assert forall c :: c in x[..|x| - 3] ==> IsDigit(c);
      assert forall c :: c in x[|x| - 2..] ==> IsDigit(c);
    } else {
      assert forall c :: c in x ==> IsDigit(c);
    }
  }

  /** `ExtractMinutes` on a time literal agrees with `LiteralValue`: it is
      never `Ok(None)`, and every digit group parses. */
  lemma ExtractMinutesOfLiteral(x: string)
    requires IsTimeLiteral(x)
    ensures ExtractMinutes(x) == if LiteralValue(x).Some? then Ok(Some(LiteralValue(x).value)) else Err
  {
    if |x| <= 2 {
      SmallDigitsValue(x);
      ExtractMinutesHours(x);
    } else {
      SmallDigitsValue(x[..|x| - 3]);
      SmallDigitsValue(x[|x| - 2..]);
      assert x == x[..|x| - 3] + ":" + x[|x| - 2..];
      ExtractMinutesHoursMinutes(x[..|x| - 3], x[|x| - 2..]);
    }
  }

  /** The value of an hours-only literal. */
  lemma HoursLiteralValue(h: string)
    requires 1 <= |h| <= 2 && AllDigits(h)
    ensures IsTimeLiteral(h) && LiteralValue(h) == ClockValue(h, "")
  {
  }

  /** The value of an `H:MM` literal. */
  lemma ClockLiteralValue(h: string, m: string)
    requires 1 <= |h| <= 2 && |m| == 2 && AllDigits(h) && AllDigits(m)
    ensures IsTimeLiteral(h + ":" + m) && LiteralValue(h + ":" + m) == ClockValue(h, m)
  {
    var x := h + ":" + m;
    assert x[..|x| - 3] == h && x[|x| - 2..] == m && x[|x| - 3] == ':';
  }

  lemma SmallDigitsValue(s: string)
    requires AllDigits(s) && |s| <= 2
    ensures DigitsValue(s) <= 99
  {
    if s != [] {
      assert AllDigits(s[..|s| - 1]);
    }
  }

  /** The length of the start capture in a candidate body `t` (the text
      after a `(`): the one length at which a time literal is followed by
      `h-`. */
  function StartLength(t: string): (k: Option<nat>)
    ensures k.Some? ==> k.value + 2 <= |t| && IsTimeLiteral(t[..k.value]) && t[k.value..k.value + 2] == "h-"
  {
    if 3 <= |t| && IsTimeLiteral(t[..1]) && t[1..3] == "h-" then Some(1)
    else if 4 <= |t| && IsTimeLiteral(t[..2]) && t[2..4] == "h-" then Some(2)
    else if 6 <= |t| && IsTimeLiteral(t[..4]) && t[4..6] == "h-" then Some(4)
    else if 7 <= |t| && IsTimeLiteral(t[..5]) && t[5..7] == "h-" then Some(5)
    else None
  }

  /** The pattern after its leading `(`, anchored at both ends of `t`:
      `start h- end h)` with two time literals. */
  function BodyCaptures(t: string): (r: Option<(string, string)>)
    ensures r.Some? ==>
      t == r.value.0 + "h-" + r.value.1 + "h)" && IsTimeLiteral(r.value.0) && IsTimeLiteral(r.value.1)
  {
    match StartLength(t)
    case None => None
    case Some(k) =>
      var rest := t[k + 2..];
      if 2 <= |rest| && rest[|rest| - 2..] == "h)" && IsTimeLiteral(rest[..|rest| - 2]) then
        assert t == t[..k] + "h-" + rest[..|rest| - 2] + "h)";
        Some((t[..k], rest[..|rest| - 2]))
      else None
  }

  /** The decomposition of a body is unique. */
  lemma BodyCapturesComplete(a: string, b: string)
    requires IsTimeLiteral(a) && IsTimeLiteral(b)
    ensures BodyCaptures(a + "h-" + b + "h)") == Some((a, b))
  {
    var t := a + "h-" + b + "h)";
    assert t == a + "h-" + (b + "h)");
    StartLengthOfLiteral(a, b + "h)");
    assert StartLength(t) == Some(|a|);
    assert t[..|a|] == a;
    var rest := t[|a| + 2..];
    assert rest == b + "h)";
    assert rest[..|rest| - 2] == b;
    assert rest[|rest| - 2..] == "h)";
  }

  /** A time literal followed by `h-` is found at its own length. */
  lemma StartLengthOfLiteral(a: string, rest: string)
    requires IsTimeLiteral(a)
    ensures StartLength(a + "h-" + rest) == Some(|a|)
  {
    var t := a + "h-" + rest;
    LiteralShape(a);
    assert t[..|a|] == a;
    assert t[|a|..|a| + 2] == "h-";
    if 1 < |a| {
      assert a[1] in a;
      assert t[1..3][0] == t[1] == a[1];
    }
    if 2 < |a| {
      assert a[2] in a;
      assert t[2..4][0] == t[2] == a[2];
    }
    if 4 < |a| {
      assert a[4] in a;
      assert t[4..6][0] == t[4] == a[4];
    }
  }

  /** A recognized body contains no `(`. */
  lemma BodyHasNoParen(t: string)
    ensures BodyCaptures(t).Some? ==> '(' !in t
  {
    if BodyCaptures(t).Some? {
      var (a, b) := BodyCaptures(t).value;
      LiteralShape(a);
      LiteralShape(b);
      assert t == a + "h-" + b + "h)";
    }
  }

  /** The whole pattern matches at index `i` of `s`: a `(` followed by a
      body that runs to the end of `s` (the `$`). */
  predicate MatchAt(s: string, i: nat) {
    i < |s| && s[i] == '(' && BodyCaptures(s[i + 1..]).Some?
  }

  /** `Regex::captures`: the captures of the leftmost match at or after `i`. */
  function CapturesFrom(s: string, i: nat): (r: Option<(string, string)>)
    decreases |s| - i
  {
    if i >= |s| then None
    else if MatchAt(s, i) then BodyCaptures(s[i + 1..])
    else CapturesFrom(s, i + 1)
  }

  function Captures(s: string): Option<(string, string)> {
    CapturesFrom(s, 0)
  }

  /** A match found leaves the name as `prefix ( start h- end h)`. */
  lemma {:induction false} CapturesFromSound(s: string, i: nat)
    requires CapturesFrom(s, i).Some?
    ensures exists j :: i <= j < |s| && MatchAt(s, j) && CapturesFrom(s, i) == BodyCaptures(s[j + 1..])
    decreases |s| - i
  {
    if !MatchAt(s, i) {
      CapturesFromSound(s, i + 1);
    }
  }

  /** No index before a `(` of `s` that lies past `i` can start a match, so
      the search moves on past it. */
  lemma {:induction false} CapturesSkipTo(s: string, i: nat, p: nat)
    requires i <= p < |s| && s[p] == '('
    ensures CapturesFrom(s, i) == CapturesFrom(s, p)
    decreases p - i
  {
    if i < p {
      assert !MatchAt(s, i) by {
        assert s[i + 1..][p - i - 1] == '(';
        BodyHasNoParen(s[i + 1..]);
      }
      CapturesSkipTo(s, i + 1, p);
    }
  }

  /** Searching `pre + suf` from inside `suf` is searching `suf`. */
  lemma {:induction false} CapturesShift(pre: string, suf: string, k: nat)
    requires k <= |suf|
    ensures CapturesFrom(pre + suf, |pre| + k) == CapturesFrom(suf, k)
    decreases |suf| - k
  {
    if k < |suf| {
      assert (pre + suf)[|pre| + k] == suf[k];
      assert (pre + suf)[|pre| + k + 1..] == suf[k + 1..];
      CapturesShift(pre, suf, k + 1);
    }
  }

  // ---- extract_time_range ----

  /** The trailing label of a scene name as a pair of minute values. */
  function ExtractTimeRange(s: string): (r: Option<TimeRange>)
    ensures r.Some? ==> r.value.0 <= MAX_MINUTES && r.value.1 <= MAX_MINUTES
  {
    match Captures(s)
    case None => None
    case Some((start, end)) =>
      match (ExtractMinutes(start), ExtractMinutes(end))
      case (Ok(Some(a)), Ok(Some(b))) => Some((a, b))
      case _ => None
  }

  /** Only the text from a `(` of the name onwards matters: in particular
      the result is decided by the text from the last `(` to the end. */
  lemma ExtractTimeRangeSuffix(pre: string, suf: string)
    requires '(' in suf
    ensures ExtractTimeRange(pre + suf) == ExtractTimeRange(suf)
  {
    var p :| 0 <= p < |suf| && suf[p] == '(';
    assert (pre + suf)[|pre| + p] == '(';
    CapturesSkipTo(pre + suf, 0, |pre| + p);
    CapturesShift(pre, suf, p);
    CapturesSkipTo(suf, 0, p);
  }

  /** The leftmost match of a name ending in `(start h- end h)`, with two
      time literals, captures those two literals. */
  lemma CapturesOfLabel(pre: string, a: string, b: string)
    requires IsTimeLiteral(a) && IsTimeLiteral(b)
    ensures Captures(pre + "(" + a + "h-" + b + "h)") == Some((a, b))
  {
    var body := a + "h-" + b + "h)";
    var suf := "(" + body;
    var s := pre + suf;
    assert pre + "(" + a + "h-" + b + "h)" == s;
    assert s[|pre|] == '(';
    CapturesSkipTo(s, 0, |pre|);
    CapturesShift(pre, suf, 0);
    BodyCapturesComplete(a, b);
    assert suf[1..] == body;
    assert MatchAt(suf, 0);
  }

  /** Every name ending in `(start h- end h)` with two time literals is
      recognized, whatever precedes the label; the result is the pair of
      their values when both are within bounds, and nothing otherwise. */
  lemma ExtractTimeRangeComplete(pre: string, a: string, b: string)
    requires IsTimeLiteral(a) && IsTimeLiteral(b)
    ensures ExtractTimeRange(pre + "(" + a + "h-" + b + "h)") ==
      if LiteralValue(a).Some? && LiteralValue(b).Some?
      then Some((LiteralValue(a).value, LiteralValue(b).value))
      else None
  {
    CapturesOfLabel(pre, a, b);
    ExtractMinutesOfLiteral(a);
    ExtractMinutesOfLiteral(b);
  }

  /** A match leaves the name as `prefix ( start h- end h)`. */
  lemma CapturesSound(s: string)
    requires Captures(s).Some?
    ensures IsTimeLiteral(Captures(s).value.0) && IsTimeLiteral(Captures(s).value.1)
    ensures exists pre :: s == pre + "(" + Captures(s).value.0 + "h-" + Captures(s).value.1 + "h)"
  {
    CapturesFromSound(s, 0);
    var j :| 0 <= j < |s| && MatchAt(s, j) && Captures(s) == BodyCaptures(s[j + 1..]);
    var (a, b) := BodyCaptures(s[j + 1..]).value;
    SplitAtParen(s, j);
    LabelAssoc(s[..j], a, b);
    assert s == s[..j] + "(" + a + "h-" + b + "h)";
  }

  lemma SplitAtParen(s: string, j: nat)
    requires j < |s| && s[j] == '('
    ensures s == s[..j] + "(" + s[j + 1..]
  {
    assert s == s[..j] + [s[j]] + s[j + 1..];
  }

  lemma LabelAssoc(pre: string, a: string, b: string)
    ensures pre + "(" + (a + "h-" + b + "h)") == pre + "(" + a + "h-" + b + "h)"
  {
  }

  /** Conversely, every recognized name has that shape. */
  lemma ExtractTimeRangeSound(s: string)
    requires ExtractTimeRange(s).Some?
    ensures exists pre, a, b ::
      && s == pre + "(" + a + "h-" + b + "h)" && IsTimeLiteral(a) && IsTimeLiteral(b)
      && LiteralValue(a) == Some(ExtractTimeRange(s).value.0)
      && LiteralValue(b) == Some(ExtractTimeRange(s).value.1)
  {
    CapturesSound(s);
    var (a, b) := Captures(s).value;
    var pre :| s == pre + "(" + a + "h-" + b + "h)";
    ExtractMinutesOfLiteral(a);
    ExtractMinutesOfLiteral(b);
  }

  /** No `(` at or after `i`: no match there. */
  lemma {:induction false} CapturesWithoutParen(s: string, i: nat)
    requires forall j :: i <= j < |s| ==> s[j] != '('
    ensures CapturesFrom(s, i) == None
    decreases |s| - i
  {
    if i < |s| {
      CapturesWithoutParen(s, i + 1);
    }
  }

  // ---- a label for every range, and the round trip ----

  function DigitChar(d: nat): (c: char)
    requires d < 10
    ensures IsDigit(c)
  {
    ('0' as int + d) as char
  }

  /** `H:MM` for a value up to 24:59, the hour without a leading zero. */
  function ClockText(v: nat): string
    requires v <= MAX_MINUTES
  {
    var h := v / 60;
    var m := v % 60;
    (if h < 10 then [DigitChar(h)] else [DigitChar(h / 10), DigitChar(h % 10)])
      + [':', DigitChar(m / 10), DigitChar(m % 10)]
  }

  /** The label `(H:MMh-H:MMh)` naming a range. */
  function Label(range: TimeRange): string
    requires range.0 <= MAX_MINUTES && range.1 <= MAX_MINUTES
  {
    "(" + ClockText(range.0) + "h-" + ClockText(range.1) + "h)"
  }

  lemma ClockTextIsLiteral(v: nat)
    requires v <= MAX_MINUTES
    ensures IsTimeLiteral(ClockText(v)) && LiteralValue(ClockText(v)) == Some(v)
  {
    var h := v / 60;
    var m := v % 60;
    var hs := if h < 10 then [DigitChar(h)] else [DigitChar(h / 10), DigitChar(h % 10)];
    var ms := [DigitChar(m / 10), DigitChar(m % 10)];
    var x := ClockText(v);
    assert x == hs + [':'] + ms;
    assert x[..|x| - 3] == hs && x[|x| - 2..] == ms;
    assert DigitsValue(hs) == h by {
      if h >= 10 { assert hs[..1] == [DigitChar(h / 10)]; }
    }
    assert DigitsValue(ms) == m by {
      assert ms[..1] == [DigitChar(m / 10)];
    }
  }

  /** Reading back the label of a range gives the range, after any name. */
  lemma ExtractTimeRangeOfLabel(name: string, range: TimeRange)
    requires range.0 <= MAX_MINUTES && range.1 <= MAX_MINUTES
    ensures ExtractTimeRange(name + Label(range)) == Some(range)
  {
    var a, b := ClockText(range.0), ClockText(range.1);
    LabelText(name, a, b);
    ClockTextIsLiteral(range.0);
    ClockTextIsLiteral(range.1);
    ExtractTimeRangeComplete(name, a, b);
  }

  lemma LabelText(name: string, a: string, b: string)
    ensures name + ("(" + a + "h-" + b + "h)") == name + "(" + a + "h-" + b + "h)"
  {
  }

  // ---- the cases of `test_extract_time_range` ----

  /** The value of an hours-only literal with digit value `hv`. */
  lemma LiteralOfHours(h: string, hv: nat)
    requires 1 <= |h| <= 2 && AllDigits(h) && DigitsValue(h) == hv
    ensures IsTimeLiteral(h) && LiteralValue(h) == if hv <= 24 then Some(hv * 60) else None
  {
    HoursLiteralValue(h);
  }

  /** The value of an `H:MM` literal with digit values `hv` and `mv`. */
  lemma LiteralOfClock(h: string, m: string, hv: nat, mv: nat)
    requires 1 <= |h| <= 2 && |m| == 2 && AllDigits(h) && AllDigits(m)
    requires DigitsValue(h) == hv && DigitsValue(m) == mv
    ensures IsTimeLiteral(h + ":" + m)
    ensures LiteralValue(h + ":" + m) == if hv <= 24 && mv <= 59 then Some(hv * 60 + mv) else None
  {
    ClockLiteralValue(h, m);
  }

  /** A name that is a label of two literals with these values. */
  lemma AcceptsLabel(s: string, pre: string, a: string, b: string, va: nat, vb: nat)
    requires s == pre + "(" + a + "h-" + b + "h)"
    requires IsTimeLiteral(a) && LiteralValue(a) == Some(va)
    requires IsTimeLiteral(b) && LiteralValue(b) == Some(vb)
    ensures ExtractTimeRange(s) == Some((va, vb))
  {
    ExtractTimeRangeComplete(pre, a, b);
  }

  /** A name that is a label of two literals, one of them out of bounds. */
  lemma RefusesLabel(s: string, pre: string, a: string, b: string)
    requires s == pre + "(" + a + "h-" + b + "h)"
    requires IsTimeLiteral(a) && IsTimeLiteral(b)
    requires LiteralValue(a).None? || LiteralValue(b).None?
    ensures ExtractTimeRange(s) == None
  {
    ExtractTimeRangeComplete(pre, a, b);
  }

  lemma ExtractTimeRangeAcceptsHours()
    ensures ExtractTimeRange("Test (10h-20h)") == Some((600, 1200))
  {
    assert "Test (10h-20h)" == "Test " + "(" + "10" + "h-" + "20" + "h)";
    HoursParts();
    AcceptsLabel("Test (10h-20h)", "Test ", "10", "20", 600, 1200);
  }

  /** The values of the two literals of `Test (10h-20h)`. */
  lemma HoursParts()
    ensures IsTimeLiteral("10") && LiteralValue("10") == Some(600)
    ensures IsTimeLiteral("20") && LiteralValue("20") == Some(1200)
  {
    TwoDigitsValue("10");
    LiteralOfHours("10", 10);
    TwoDigitsValue("20");
    LiteralOfHours("20", 20);
  }

  lemma ExtractTimeRangeAcceptsMinutes()
    ensures ExtractTimeRange("Test (12:23h-20h)") == Some((743, 1200))
  {
    assert "Test (12:23h-20h)" == "Test " + "(" + ("12" + ":" + "23") + "h-" + "20" + "h)";
    MinutesParts();
    AcceptsLabel("Test (12:23h-20h)", "Test ", "12" + ":" + "23", "20", 743, 1200);
  }

  /** The values of the two literals of `Test (12:23h-20h)`. */
  lemma MinutesParts()
    ensures IsTimeLiteral("12" + ":" + "23") && LiteralValue("12" + ":" + "23") == Some(743)
    ensures IsTimeLiteral("20") && LiteralValue("20") == Some(1200)
  {
    TwoDigitsValue("12");
    TwoDigitsValue("23");
    LiteralOfClock("12", "23", 12, 23);
    TwoDigitsValue("20");
    LiteralOfHours("20", 20);
  }

  lemma ExtractTimeRangeAcceptsBothMinutes()
    ensures ExtractTimeRange("Test (12:23h-20:59h)") == Some((743, 1259))
  {
    assert "Test (12:23h-20:59h)" == "Test " + "(" + ("12" + ":" + "23") + "h-" + ("20" + ":" + "59") + "h)";
    BothMinutesParts();
    AcceptsLabel("Test (12:23h-20:59h)", "Test ", "12" + ":" + "23", "20" + ":" + "59", 743, 1259);
  }

  /** The values of the two literals of `Test (12:23h-20:59h)`. */
  lemma BothMinutesParts()
    ensures IsTimeLiteral("12" + ":" + "23") && LiteralValue("12" + ":" + "23") == Some(743)
    ensures IsTimeLiteral("20" + ":" + "59") && LiteralValue("20" + ":" + "59") == Some(1259)
  {
    TwoDigitsValue("12");
    TwoDigitsValue("23");
    LiteralOfClock("12", "23", 12, 23);
    TwoDigitsValue("20");
    TwoDigitsValue("59");
    LiteralOfClock("20", "59", 20, 59);
  }

  lemma ExtractTimeRangeAcceptsMidnight()
    ensures ExtractTimeRange("Test (0:01h-0:00h)") == Some((1, 0))
  {
    assert "Test (0:01h-0:00h)" == "Test " + "(" + ("0" + ":" + "01") + "h-" + ("0" + ":" + "00") + "h)";
    MidnightParts();
    AcceptsLabel("Test (0:01h-0:00h)", "Test ", "0" + ":" + "01", "0" + ":" + "00", 1, 0);
  }

  /** The values of the two literals of `Test (0:01h-0:00h)`. */
  lemma MidnightParts()
    ensures IsTimeLiteral("0" + ":" + "01") && LiteralValue("0" + ":" + "01") == Some(1)
    ensures IsTimeLiteral("0" + ":" + "00") && LiteralValue("0" + ":" + "00") == Some(0)
  {
    OneDigitValue("0");
    TwoDigitsValue("01");
    LiteralOfClock("0", "01", 0, 1);
    TwoDigitsValue("00");
    LiteralOfClock("0", "00", 0, 0);
  }

  lemma ExtractTimeRangeAcceptsEmptyRange()
    ensures ExtractTimeRange("Test (0:00h-0:00h)") == Some((0, 0))
  {
    assert "Test (0:00h-0:00h)" == "Test " + "(" + ("0" + ":" + "00") + "h-" + ("0" + ":" + "00") + "h)";
    EmptyRangeParts();
    AcceptsLabel("Test (0:00h-0:00h)", "Test ", "0" + ":" + "00", "0" + ":" + "00", 0, 0);
  }

  /** The values of the two literals of `Test (0:00h-0:00h)`. */
  lemma EmptyRangeParts()
    ensures IsTimeLiteral("0" + ":" + "00") && LiteralValue("0" + ":" + "00") == Some(0)
    ensures IsTimeLiteral("0" + ":" + "00") && LiteralValue("0" + ":" + "00") == Some(0)
  {
    OneDigitValue("0");
    TwoDigitsValue("00");
    LiteralOfClock("0", "00", 0, 0);
  }

  /** Out-of-bounds values are recognized by the pattern and then refused. */
  lemma ExtractTimeRangeRejectsBounds()
    ensures ExtractTimeRange("Test (10h-20:60h)") == None
    ensures ExtractTimeRange("Test (10h-25h)") == None
  {
    RejectsMinutesBound();
    RejectsHoursBound();
  }

  lemma RejectsMinutesBound()
    ensures ExtractTimeRange("Test (10h-20:60h)") == None
  {
    assert "Test (10h-20:60h)" == "Test " + "(" + "10" + "h-" + ("20" + ":" + "60") + "h)";
    MinutesBoundParts();
    RefusesLabel("Test (10h-20:60h)", "Test ", "10", "20" + ":" + "60");
  }

  /** The values of the two literals of `Test (10h-20:60h)`. */
  lemma MinutesBoundParts()
    ensures IsTimeLiteral("10") && IsTimeLiteral("20" + ":" + "60")
    ensures LiteralValue("10").None? || LiteralValue("20" + ":" + "60").None?
  {
    TwoDigitsValue("10");
    LiteralOfHours("10", 10);
    TwoDigitsValue("20");
    TwoDigitsValue("60");
    LiteralOfClock("20", "60", 20, 60);
  }

  lemma RejectsHoursBound()
    ensures ExtractTimeRange("Test (10h-25h)") == None
  {
    assert "Test (10h-25h)" == "Test " + "(" + "10" + "h-" + "25" + "h)";
    HoursBoundParts();
    RefusesLabel("Test (10h-25h)", "Test ", "10", "25");
  }

  /** The values of the two literals of `Test (10h-25h)`. */
  lemma HoursBoundParts()
    ensures IsTimeLiteral("10") && IsTimeLiteral("25")
    ensures LiteralValue("10").None? || LiteralValue("25").None?
  {
    TwoDigitsValue("10");
    LiteralOfHours("10", 10);
    TwoDigitsValue("25");
    LiteralOfHours("25", 25);
  }

  /** A one-digit minute field is not the pattern. */
  lemma ExtractTimeRangeRejectsShortMinutes()
    ensures ExtractTimeRange("Test (0:1h-0:0h)") == None
  {
    var s := "Test (0:1h-0:0h)";
    var t := "0:1h-0:0h)";
    assert s[5] == '(' && s[6..] == t;
    CapturesSkipTo(s, 0, 5);
    ShortMinutesBody();
    assert !MatchAt(s, 5);
    assert forall j :: 6 <= j < |s| ==> s[j] != '(' by {
      assert forall j :: 0 <= j < |t| ==> t[j] != '(';
    }
    CapturesWithoutParen(s, 6);
  }

  /** No start literal of the pattern is followed by `h-` in `0:1h-0:0h)`. */
  lemma ShortMinutesBody()
    ensures StartLength("0:1h-0:0h)") == None
  {
    var t := "0:1h-0:0h)";
    assert t[1..3] == ":1";
    assert !AllDigits(t[..2]) by { assert !IsDigit(t[..2][1]); }
    assert t[..4][2..] == "1h" && !AllDigits("1h") by { assert !IsDigit("1h"[1]); }
    assert t[..5][2] == '1';
  }

  /** Without the closing bracket there is no match. */
  lemma ExtractTimeRangeRejectsOpen()
    ensures ExtractTimeRange("Test (10h-20h") == None
  {
    var s := "Test (10h-20h";
    var t := "10h-20h";
    assert s[5] == '(' && s[6..] == t;
    CapturesSkipTo(s, 0, 5);
    OpenBody();
    assert !MatchAt(s, 5);
    assert forall j :: 6 <= j < |s| ==> s[j] != '(' by {
      assert forall j :: 0 <= j < |t| ==> t[j] != '(';
    }
    CapturesWithoutParen(s, 6);
  }

  /** `10h-20h` lacks the closing `)`, so no body is recognized. */
  lemma OpenBody()
    ensures BodyCaptures("10h-20h") == None
  {
    var t := "10h-20h";
    assert t[..2] == "10" && t[2..4] == "h-" && t[4..] == "20h";
    assert "20h"[1..] == "0h";
  }

  /** Without the opening bracket there is no match. */
  lemma ExtractTimeRangeRejectsUnopened()
    ensures ExtractTimeRange("Test 10h-20h)") == None
  {
    CapturesWithoutParen("Test 10h-20h)", 0);
  }
}
