/** Reading a timestamp from its ISO rendering. */
module Timestamps {
  import opened Prelude
  import opened Addresses
  import opened Calendar
  import Joining

  // ----- pieces of text -----

  predicate Digit(c: char) {
    '0' <= c <= '9'
  }

  /** White space, as Unicode has it. */
  predicate Space(c: char) {
    var n := c as int;
    || 9 <= n <= 13 || n == 32 || n == 0x85 || n == 0xA0 || n == 0x1680
    || 0x2000 <= n <= 0x200A || n == 0x2028 || n == 0x2029 || n == 0x202F || n == 0x205F || n == 0x3000
  }

  function TrimStart(s: string): string {
    if s != "" && Space(s[0]) then TrimStart(s[1..]) else s
  }

  function TrimEnd(s: string): string {
    if s != "" && Space(s[|s| - 1]) then TrimEnd(s[..|s| - 1]) else s
  }

  /** `trim_end_matches`. */
  function DropLast(s: string, c: char): string {
    if s != "" && s[|s| - 1] == c then DropLast(s[..|s| - 1], c) else s
  }

  /** The text before and after the first of either separator. */
  function SplitAtEither(s: string, a: char, b: char): Option<(string, string)> {
    if s == "" then None
    else if s[0] == a || s[0] == b then Some(("", s[1..]))
    else match SplitAtEither(s[1..], a, b)
      case None => None
      case Some((before, after)) => Some(([s[0]] + before, after))
  }

  /** The text before the last separator. */
  function BeforeLast(s: string, c: char): Option<string> {
    if s == "" then None else if s[|s| - 1] == c then Some(s[..|s| - 1]) else BeforeLast(s[..|s| - 1], c)
  }

  function Split(s: string, c: char): (parts: seq<string>)
    ensures parts != []
    decreases |s|
  {
    match SplitOnce(s, c)
    case None => [s]
    case Some((before, after)) => [before] + Split(after, c)
  }

  function DigitValue(c: char): nat
    requires Digit(c)
  {
    c as int - '0' as int
  }

  function Number(s: string): nat
    requires forall i :: 0 <= i < |s| ==> Digit(s[i])
  {
    if s == "" then 0 else 10 * Number(s[..|s| - 1]) + DigitValue(s[|s| - 1])
  }

  /** A non-empty run of digits. */
  predicate Numeral(s: string) {
    s != "" && forall i :: 0 <= i < |s| ==> Digit(s[i])
  }

  /** `str::parse::<i64>`: a sign is allowed, an overflow is not. */
  function ParseInt(s: string): Option<int64> {
    var digits := if s != "" && (s[0] == '+' || s[0] == '-') then s[1..] else s;
    if !Numeral(digits) then None
    else
      var n: int := if s[0] == '-' then 0 - Number(digits) else Number(digits);
      if I64_MIN <= n <= I64_MAX then Some(n) else None
  }

  // ----- the parser -----

  function Padded(s: string, n: nat): string
    decreases n - |s|
  {
    if |s| < n then Padded(s + ['0'], n) else s
  }

  /** A fraction to the millisecond: cut or padded to three digits. */
  function ParseMillis(fraction: string): Option<int64> {
    if fraction == "" then Some(0) else ParseInt(Padded(Take(fraction, 3), 3))
  }

  /** The time of day without its zone. */
  function WithoutZone(rest: string): string {
    var time := match SplitOnce(rest, '+')
                case Some((before, _)) => before
                case None => match BeforeLast(rest, '-') case Some(before) => before case None => rest;
    DropLast(time, 'Z')
  }

  function ParseClock(time: string): Option<Clock> {
    var parts := Split(time, ':');
    if |parts| < 2 then None
    else
      var seconds := if |parts| > 2 then parts[2] else "0";
      var (whole, fraction) := match SplitOnce(seconds, '.')
                               case Some((w, f)) => (w, f)
                               case None => (seconds, "");
      match (ParseInt(parts[0]), ParseInt(parts[1]), ParseInt(whole), ParseMillis(fraction))
      case (Some(hour), Some(minute), Some(second), Some(millis)) => Some(Clock(hour, minute, second, millis))
      case _ => None
  }

  function ParseDate(date: string): Option<Date> {
    var parts := Split(date, '-');
    if |parts| < 3 then None
    else match (ParseInt(parts[0]), ParseInt(parts[1]), ParseInt(parts[2]))
      case (Some(year), Some(month), Some(day)) => Some(Date(year, month, day))
      case _ => None
  }

  const MIDNIGHT: string := "00" + [':'] + ("00" + [':'] + "00")

  /** Milliseconds since the epoch; a date alone is midnight. */
  function ParseTimestamp(text: string): Option<int> {
    var trimmed := TrimEnd(TrimStart(text));
    var (date, rest) := match SplitAtEither(trimmed, 'T', ' ')
                        case Some((d, r)) => (d, r)
                        case None => (trimmed, MIDNIGHT);
    match (ParseDate(date), ParseClock(WithoutZone(rest)))
    case (Some(d), Some(c)) => Some(MillisOf(d, c))
    case _ => None
  }

  /** The loop that pads a fraction. */
  method ReadMillis(fraction: string) returns (millis: Option<int64>)
    ensures millis == ParseMillis(fraction)
  {
    if fraction == "" {
      return Some(0);
    }
    var f := Take(fraction, 3);
    while |f| < 3
      invariant |f| <= 3 && Padded(f, 3) == Padded(Take(fraction, 3), 3)
    {
      f := f + ['0'];
    }
    millis := ParseInt(f);
  }

  // ----- renderings -----

  datatype Zone = Unstated | Zulu | East(offset: string) | West(offset: string)

  function PrintZone(z: Zone): string {
    match z
    case Unstated => ""
    case Zulu => "Z"
    case East(offset) => ['+'] + offset
    case West(offset) => ['-'] + offset
  }

  datatype Written = Written(year: string, month: string, day: string, separator: char,
                             hour: string, minute: string, second: string, fraction: string, zone: Zone)

  function PrintTime(w: Written): string {
    w.hour + [':'] + (w.minute + [':'] + (w.second + if w.fraction == "" then "" else ['.'] + w.fraction))
  }

  function PrintDate(w: Written): string {
    w.year + ['-'] + (w.month + ['-'] + w.day)
  }

  function PrintTimestamp(w: Written): string {
    PrintDate(w) + [w.separator] + (PrintTime(w) + PrintZone(w.zone))
  }

  predicate Readable(s: string) {
    Numeral(s) && Number(s) <= I64_MAX
  }

  /** Numbers of any width; an offset is digits, perhaps with a colon. */
  predicate WellWritten(w: Written) {
    && Readable(w.year) && Readable(w.month) && Readable(w.day)
    && Readable(w.hour) && Readable(w.minute) && Readable(w.second)
    && (w.fraction != "" ==> Numeral(w.fraction))
    && (w.separator == 'T' || w.separator == ' ')
    && (w.zone.East? || w.zone.West? ==> Offset(w.zone.offset))
  }

  predicate Offset(s: string) {
    s != "" && forall i :: 0 <= i < |s| ==> Digit(s[i]) || s[i] == ':'
  }

  /** The thousandths of a fraction. */
  function Thousandths(fraction: string): nat
    requires fraction != "" ==> Numeral(fraction)
  {
    if fraction == "" then 0
    else if |fraction| == 1 then 100 * Number(fraction)
    else if |fraction| == 2 then 10 * Number(fraction)
    else Number(fraction[..3])
  }

  function DateOf(w: Written): Date
    requires WellWritten(w)
  {
    Date(Number(w.year), Number(w.month), Number(w.day))
  }

  function ClockOf(w: Written): Clock
    requires WellWritten(w)
  {
    Clock(Number(w.hour), Number(w.minute), Number(w.second), Thousandths(w.fraction))
  }

  // ----- reading them back -----

  lemma ReadableParses(s: string)
    requires Readable(s)
    ensures ParseInt(s) == Some(Number(s))
  {
    assert Digit(s[0]);
  }

  lemma SplitOnceAt(before: string, c: char, after: string)
    requires c !in before
    ensures SplitOnce(before + [c] + after, c) == Some((before, after))
  {
    var whole := before + [c] + after;
    assert whole[|before|] == c;
    var parts := SplitOnce(whole, c).value;
    Joining.FirstSeparator(parts.0, parts.1, before, after, c);
  }

  lemma {:induction false} SplitAtEitherAt(before: string, c: char, after: string, a: char, b: char)
    requires a !in before && b !in before && (c == a || c == b)
    ensures SplitAtEither(before + [c] + after, a, b) == Some((before, after))
  {
    var whole := before + [c] + after;
    if before == "" {
      assert whole == [c] + after;
    } else {
      assert whole[1..] == before[1..] + [c] + after;
      SplitAtEitherAt(before[1..], c, after, a, b);
      assert before == [before[0]] + before[1..];
    }
  }

  lemma {:induction false} BeforeLastAt(before: string, c: char, after: string)
    requires c !in after
    ensures BeforeLast(before + [c] + after, c) == Some(before)
  {
    var whole := before + [c] + after;
    if after == "" {
      assert whole[..|whole| - 1] == before;
    } else {
      var n := |after| - 1;
      assert whole[..|whole| - 1] == before + [c] + after[..n];
      assert whole[|whole| - 1] == after[n];
      BeforeLastAt(before, c, after[..n]);
    }
  }

  lemma {:induction false} BeforeLastNone(s: string, c: char)
    requires c !in s
    ensures BeforeLast(s, c) == None
  {
    if s != "" {
      BeforeLastNone(s[..|s| - 1], c);
    }
  }

  lemma NoSeparator(s: string, c: char)
    requires Numeral(s) && !Digit(c)
    ensures c !in s
  {}

  /** What stands between the separator and the zone: digits, colons and perhaps a point. */
  lemma TimeCharacters(w: Written, i: nat)
    requires WellWritten(w) && i < |PrintTime(w)|
    ensures Digit(PrintTime(w)[i]) || PrintTime(w)[i] == ':' || PrintTime(w)[i] == '.'
  {}

  lemma TimeHas(w: Written, c: char)
    requires WellWritten(w) && !Digit(c) && c != ':' && c != '.'
    ensures c !in PrintTime(w)
  {
    forall i | 0 <= i < |PrintTime(w)| ensures PrintTime(w)[i] != c {
      TimeCharacters(w, i);
    }
  }

  lemma TimeEndsInDigit(w: Written)
    requires WellWritten(w)
    ensures PrintTime(w) != "" && Digit(PrintTime(w)[|PrintTime(w)| - 1])
  {
    var tail := w.second + if w.fraction == "" then "" else ['.'] + w.fraction;
    assert Digit(tail[|tail| - 1]);
    assert PrintTime(w)[|PrintTime(w)| - 1] == tail[|tail| - 1];
  }

  lemma ZoneIsDropped(w: Written)
    requires WellWritten(w)
    ensures WithoutZone(PrintTime(w) + PrintZone(w.zone)) == PrintTime(w)
  {
    var time := PrintTime(w);
    TimeHas(w, '+');
    TimeHas(w, '-');
    TimeEndsInDigit(w);
    match w.zone
    case Unstated =>
      assert time + "" == time;
      BeforeLastNone(time, '-');
    case Zulu =>
      var rest := time + "Z";
      assert '+' !in rest && '-' !in rest;
      BeforeLastNone(rest, '-');
      assert rest[|rest| - 1] == 'Z' && rest[..|rest| - 1] == time;
      assert DropLast(rest, 'Z') == DropLast(time, 'Z') == time;
    case East(offset) =>
      assert time + (['+'] + offset) == time + ['+'] + offset;
      SplitOnceAt(time, '+', offset);
    case West(offset) =>
      assert time + (['-'] + offset) == time + ['-'] + offset;
      assert '+' !in time + ['-'] + offset && '-' !in offset;
      BeforeLastAt(time, '-', offset);
  }

  lemma FirstPart(a: string, c: char, rest: string)
    requires c !in a
    ensures Split(a + [c] + rest, c) == [a] + Split(rest, c)
  {
    SplitOnceAt(a, c, rest);
  }

  lemma ThreeParts(a: string, b: string, d: string, c: char)
    requires c !in a && c !in b && c !in d
    ensures Split(a + [c] + (b + [c] + d), c) == [a, b, d]
  {
    FirstPart(a, c, b + [c] + d);
    FirstPart(b, c, d);
    assert Split(d, c) == [d];
  }

  lemma DateReads(w: Written)
    requires WellWritten(w)
    ensures ParseDate(PrintDate(w)) == Some(DateOf(w))
  {
    NoSeparator(w.year, '-');
    NoSeparator(w.month, '-');
    NoSeparator(w.day, '-');
    ThreeParts(w.year, w.month, w.day, '-');
    ReadableParses(w.year);
    ReadableParses(w.month);
    ReadableParses(w.day);
  }

  lemma PaddedThree(s: string)
    requires 1 <= |s| <= 3
    ensures Padded(s, 3) == if |s| == 1 then s + "00" else if |s| == 2 then s + "0" else s
  {
    if |s| == 1 {
      assert (s + ['0']) + ['0'] == s + "00";
      assert Padded(s, 3) == Padded(s + ['0'], 3) == Padded((s + ['0']) + ['0'], 3);
    }
  }

  lemma NumberOfZero(s: string)
    requires forall i :: 0 <= i < |s| ==> Digit(s[i])
    ensures forall i :: 0 <= i < |s + "0"| ==> Digit((s + "0")[i])
    ensures Number(s + "0") == 10 * Number(s)
  {
    assert (s + "0")[..|s|] == s;
  }

  lemma {:induction false} NumberBound(s: string)
    requires Numeral(s) && |s| <= 3
    ensures Number(s) < if |s| == 1 then 10 else if |s| == 2 then 100 else 1000
  {
    if |s| > 1 {
      NumberBound(s[..|s| - 1]);
    } else {
      assert s[..0] == "" && Number("") == 0;
    }
  }

  lemma FractionReads(fraction: string)
    requires fraction != "" ==> Numeral(fraction)
    ensures ParseMillis(fraction) == Some(Thousandths(fraction)) && Thousandths(fraction) < 1000
  {
    if fraction != "" {
      var three := Take(fraction, 3);
      PaddedThree(three);
      NumberBound(three);
      NumberOfZero(three);
      NumberOfZero(three + "0");
      assert three + "00" == (three + "0") + "0";
      ReadableParses(Padded(three, 3));
    }
  }

  lemma SecondsRead(w: Written)
    requires WellWritten(w)
    ensures var tail := w.second + if w.fraction == "" then "" else ['.'] + w.fraction;
            && ':' !in tail
            && (match SplitOnce(tail, '.') case Some((a, b)) => (a, b) case None => (tail, ""))
               == (w.second, w.fraction)
  {
    NoSeparator(w.second, '.');
    NoSeparator(w.second, ':');
    if w.fraction == "" {
      assert w.second + "" == w.second;
    } else {
      NoSeparator(w.fraction, ':');
      assert w.second + (['.'] + w.fraction) == w.second + ['.'] + w.fraction;
      SplitOnceAt(w.second, '.', w.fraction);
    }
  }

  lemma ClockReads(w: Written)
    requires WellWritten(w)
    ensures ParseClock(PrintTime(w)) == Some(ClockOf(w))
  {
    var tail := w.second + if w.fraction == "" then "" else ['.'] + w.fraction;
    NoSeparator(w.hour, ':');
    NoSeparator(w.minute, ':');
    SecondsRead(w);
    ThreeParts(w.hour, w.minute, tail, ':');
    ReadableParses(w.hour);
    ReadableParses(w.minute);
    ReadableParses(w.second);
    FractionReads(w.fraction);
  }

  lemma Untrimmed(s: string)
    requires s != "" && !Space(s[0]) && !Space(s[|s| - 1])
    ensures TrimEnd(TrimStart(s)) == s
  {}

  lemma TimestampIsTrim(w: Written)
    requires WellWritten(w)
    ensures TrimEnd(TrimStart(PrintTimestamp(w))) == PrintTimestamp(w)
  {
    var text, end := PrintTimestamp(w), PrintTime(w) + PrintZone(w.zone);
    TimeEndsInDigit(w);
    assert text[0] == w.year[0] && Digit(w.year[0]);
    assert text[|text| - 1] == end[|end| - 1];
    assert Digit(end[|end| - 1]) || end[|end| - 1] == 'Z' || end[|end| - 1] == ':';
    Untrimmed(text);
  }

  /** A timestamp written with a T or a space, numbers of any width, any number of fractional
      digits and any zone is read as the instant written, cut to the millisecond: the zone is
      not looked at. */
  lemma TimestampRoundTrip(w: Written)
    requires WellWritten(w)
    ensures ParseTimestamp(PrintTimestamp(w)) == Some(MillisOf(DateOf(w), ClockOf(w)))
  {
    TimestampIsTrim(w);
    DateHas(w, 'T');
    DateHas(w, ' ');
    SplitAtEitherAt(PrintDate(w), w.separator, PrintTime(w) + PrintZone(w.zone), 'T', ' ');
    DateReads(w);
    ZoneIsDropped(w);
    ClockReads(w);
  }

  lemma DateHas(w: Written, c: char)
    requires WellWritten(w) && !Digit(c) && c != '-'
    ensures c !in PrintDate(w)
  {
    NoSeparator(w.year, c);
    NoSeparator(w.month, c);
    NoSeparator(w.day, c);
  }

  /** Two such timestamps of valid dates and times are read in the order of what was written,
      whatever zones they name. */
  lemma TimestampsKeepOrder(v: Written, w: Written)
    requires WellWritten(v) && WellWritten(w)
    requires Valid(DateOf(v)) && OnClock(ClockOf(v)) && Valid(DateOf(w)) && OnClock(ClockOf(w))
    ensures ParseTimestamp(PrintTimestamp(v)).Some? && ParseTimestamp(PrintTimestamp(w)).Some?
    ensures ParseTimestamp(PrintTimestamp(v)).value < ParseTimestamp(PrintTimestamp(w)).value
            <==> Before(DateOf(v), DateOf(w)) || (DateOf(v) == DateOf(w) && Earlier(ClockOf(v), ClockOf(w)))
  {
    TimestampRoundTrip(v);
    TimestampRoundTrip(w);
    MillisKeepOrder(DateOf(v), ClockOf(v), DateOf(w), ClockOf(w));
  }

  lemma TwoZeros(zeros: string)
    requires zeros == ['0', '0']
    ensures Readable(zeros) && Number(zeros) == 0
  {
    NumberOfZero("");
    NumberOfZero("0");
    assert "" + "0" == "0" && zeros == "0" + "0";
  }

  lemma MidnightReads(w: Written, zeros: string, text: string)
    requires WellWritten(w) && zeros == ['0', '0']
    requires text == zeros + [':'] + (zeros + [':'] + zeros)
    ensures ParseClock(WithoutZone(text)) == Some(Clock(0, 0, 0, 0))
  {
    var midnight := w.(hour := zeros, minute := zeros, second := zeros, fraction := "", zone := Unstated);
    TwoZeros(zeros);
    assert zeros + "" == zeros;
    assert PrintTime(midnight) == text && text + PrintZone(Unstated) == text;
    ZoneIsDropped(midnight);
    ClockReads(midnight);
  }

  lemma DateAlone(w: Written)
    requires WellWritten(w)
    ensures TrimEnd(TrimStart(PrintDate(w))) == PrintDate(w)
    ensures SplitAtEither(PrintDate(w), 'T', ' ') == None
  {
    var date := PrintDate(w);
    assert date[0] == w.year[0] && Digit(w.year[0]);
    assert date[|date| - 1] == w.day[|w.day| - 1] && Digit(w.day[|w.day| - 1]);
    Untrimmed(date);
    DateHas(w, 'T');
    DateHas(w, ' ');
    NotSplit(date, 'T', ' ');
  }

  /** A date alone is midnight. */
  lemma BareDateIsMidnight(w: Written)
    requires WellWritten(w)
    ensures ParseTimestamp(PrintDate(w)) == Some(MillisOf(DateOf(w), Clock(0, 0, 0, 0)))
  {
    DateAlone(w);
    DateReads(w);
    MidnightReads(w, "00", MIDNIGHT);
  }

  lemma {:induction false} NotSplit(s: string, a: char, b: char)
    requires a !in s && b !in s
    ensures SplitAtEither(s, a, b) == None
  {
    if s != "" {
      NotSplit(s[1..], a, b);
    }
  }
}
