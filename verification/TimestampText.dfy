/** What digits, signs and white space mean to the reader of timestamps. */
module TimestampText {
  import opened Prelude
  import opened Calendar
  import opened Timestamps

  // ----- numbers -----

  function Figure(n: nat): char
    requires n < 10
  {
    ('0' as int + n) as char
  }

  /** A number in decimal notation. */
  function Decimal(n: nat): string {
    if n < 10 then [Figure(n)] else Decimal(n / 10) + [Figure(n % 10)]
  }

  function Zeros(k: nat): string {
    seq(k, i => '0')
  }

  lemma NextFigure(s: string, n: nat)
    requires n < 10 && forall i :: 0 <= i < |s| ==> Digit(s[i])
    ensures forall i :: 0 <= i < |s + [Figure(n)]| ==> Digit((s + [Figure(n)])[i])
    ensures Number(s + [Figure(n)]) == 10 * Number(s) + n
  {
    assert (s + [Figure(n)])[..|s|] == s;
  }

  lemma {:induction false} ZerosAreZero(k: nat)
    ensures Number(Zeros(k)) == 0
  {
    if k > 0 {
      assert Zeros(k)[..k - 1] == Zeros(k - 1);
      ZerosAreZero(k - 1);
    }
  }

  /** A number in decimal notation, with any number of leading zeros, reads as that number. */
  lemma {:induction false} DecimalReads(n: nat, k: nat)
    ensures Numeral(Zeros(k) + Decimal(n)) && Number(Zeros(k) + Decimal(n)) == n
  {
    if n < 10 {
      ZerosAreZero(k);
      NextFigure(Zeros(k), n);
    } else {
      DecimalReads(n / 10, k);
      NextFigure(Zeros(k) + Decimal(n / 10), n % 10);
      assert Zeros(k) + Decimal(n) == Zeros(k) + Decimal(n / 10) + [Figure(n % 10)];
    }
  }

  /** An integer reads as itself, with a minus, a plus or no sign; and beyond 64 bits as nothing. */
  lemma SignedReads(n: int, k: nat)
    requires n >= 0
    ensures var digits := Zeros(k) + Decimal(n);
            && ParseInt(['-'] + digits) == (if 0 - n >= I64_MIN then Some(0 - n) else None)
            && ParseInt(['+'] + digits) == (if n <= I64_MAX then Some(n) else None)
            && ParseInt(digits) == (if n <= I64_MAX then Some(n) else None)
  {
    var digits := Zeros(k) + Decimal(n);
    DecimalReads(n, k);
    assert (['-'] + digits)[1..] == digits && (['+'] + digits)[1..] == digits;
    assert Digit(digits[0]);
  }

  /** Nothing else reads as an integer. */
  lemma OnlyNumeralsRead(s: string)
    requires ParseInt(s).Some?
    ensures Numeral(s) || (s != "" && (s[0] == '+' || s[0] == '-') && Numeral(s[1..]))
  {}

  // ----- white space -----

  predicate Blank(s: string) {
    forall i :: 0 <= i < |s| ==> Space(s[i])
  }

  predicate Bare(s: string) {
    s != "" ==> !Space(s[0]) && !Space(s[|s| - 1])
  }

  lemma {:induction false} LeadingDropped(lead: string, s: string)
    requires Blank(lead) && (s != "" ==> !Space(s[0]))
    ensures TrimStart(lead + s) == s
  {
    if lead == "" {
      assert lead + s == s;
    } else {
      assert (lead + s)[1..] == lead[1..] + s;
      LeadingDropped(lead[1..], s);
    }
  }

  lemma {:induction false} TrailingDropped(s: string, trail: string)
    requires Blank(trail) && (s != "" ==> !Space(s[|s| - 1]))
    ensures TrimEnd(s + trail) == s
  {
    if trail == "" {
      assert s + trail == s;
    } else {
      var n := |trail| - 1;
      assert (s + trail)[..|s| + n] == s + trail[..n] && (s + trail)[|s| + n] == trail[n];
      TrailingDropped(s, trail[..n]);
    }
  }

  /** White space around a text is dropped, all of it and nothing else. */
  lemma TrimIsMiddle(lead: string, s: string, trail: string)
    requires Blank(lead) && Bare(s) && s != "" && Blank(trail)
    ensures TrimEnd(TrimStart(lead + s + trail)) == s
  {
    assert lead + s + trail == lead + (s + trail);
    LeadingDropped(lead, s + trail);
    TrailingDropped(s, trail);
  }

  /** A timestamp reads the same with white space around it. */
  lemma SpacesDoNotMatter(lead: string, w: Written, trail: string)
    requires WellWritten(w) && Blank(lead) && Blank(trail)
    ensures ParseTimestamp(lead + PrintTimestamp(w) + trail) == Some(MillisOf(DateOf(w), ClockOf(w)))
  {
    var text, end := PrintTimestamp(w), PrintTime(w) + PrintZone(w.zone);
    TimeEndsInDigit(w);
    assert text[0] == w.year[0] && Digit(w.year[0]);
    assert text[|text| - 1] == end[|end| - 1];
    assert Digit(end[|end| - 1]) || end[|end| - 1] == 'Z' || end[|end| - 1] == ':';
    TrimIsMiddle(lead, text, trail);
    TimestampIsTrim(w);
    TimestampRoundTrip(w);
  }

  // ----- instants -----

  /** A number of at least this many figures. */
  function Wide(n: nat, width: nat): string {
    Zeros(Max(width - |Decimal(n)|, 0)) + Decimal(n)
  }

  /** An instant as Postgres renders it. */
  function Rendered(date: Date, clock: Clock, separator: char, zone: Zone): Written
    requires date.year >= 0 && date.month >= 0 && date.day >= 0
    requires clock.hour >= 0 && clock.minute >= 0 && clock.second >= 0 && clock.millis >= 0
  {
    Written(Wide(date.year, 4), Wide(date.month, 2), Wide(date.day, 2), separator,
            Wide(clock.hour, 2), Wide(clock.minute, 2), Wide(clock.second, 2), Wide(clock.millis, 3), zone)
  }

  lemma WideReads(n: nat, width: nat)
    requires n <= I64_MAX
    ensures Readable(Wide(n, width)) && Number(Wide(n, width)) == n
  {
    DecimalReads(n, Max(width - |Decimal(n)|, 0));
  }

  lemma ThreeFigures(n: nat)
    requires n < 1000
    ensures |Wide(n, 3)| == 3 && Numeral(Wide(n, 3)) && Thousandths(Wide(n, 3)) == n
  {
    WideReads(n, 3);
    assert n >= 100 ==> |Decimal(n / 10)| == |Decimal(n / 10 / 10)| + 1 == 2;
    assert Wide(n, 3)[..3] == Wide(n, 3);
  }

  /** The rendering of a valid instant, from the year zero on, reads as the milliseconds of that instant. */
  lemma InstantRoundTrip(date: Date, clock: Clock, separator: char, zone: Zone)
    requires Valid(date) && OnClock(clock) && 0 <= date.year <= I64_MAX
    requires (separator == 'T' || separator == ' ') && (zone.East? || zone.West? ==> Offset(zone.offset))
    ensures ParseTimestamp(PrintTimestamp(Rendered(date, clock, separator, zone))) == Some(MillisOf(date, clock))
  {
    var w := Rendered(date, clock, separator, zone);
    WideReads(date.year, 4);
    WideReads(date.month, 2);
    WideReads(date.day, 2);
    WideReads(clock.hour, 2);
    WideReads(clock.minute, 2);
    WideReads(clock.second, 2);
    WideReads(clock.millis, 3);
    ThreeFigures(clock.millis);
    TimestampRoundTrip(w);
  }

  /** Seconds may be left out. */
  lemma MinutesSuffice(hour: string, minute: string)
    requires Readable(hour) && Readable(minute)
    ensures ParseClock(hour + [':'] + minute) == Some(Clock(Number(hour), Number(minute), 0, 0))
  {
    NoSeparator(hour, ':');
    NoSeparator(minute, ':');
    FirstPart(hour, ':', minute);
    assert Split(minute, ':') == [minute];
    ReadableParses(hour);
    ReadableParses(minute);
    assert "0" == Decimal(0) && Zeros(0) + Decimal(0) == Decimal(0);
    DecimalReads(0, 0);
    ReadableParses("0");
    NoSeparator("0", '.');
  }
}
