// Date-time texts of section 5.6 of RFC 3339, as Go's time.Parse and Format with
// layout time.RFC3339 treat them: upper-case T and Z only, no second 60, fractions
// cut to nanoseconds; but an hour of one digit, a comma before the fraction and
// offsets up to 24:60 are let pass.
module Rfc3339 {
  import opened Options
  import opened Calendar

  datatype Zone = Zulu | Offset(west: bool, hours: int, minutes: int)

  // What a text says, field by field; comma and shortHour tell how, where the parser
  // accepts more than the standard does.
  datatype Stamp = Stamp(date: Date, hour: int, minute: int, second: int, fraction: string, zone: Zone,
                         comma: bool, shortHour: bool)

  // What a text means: seconds since 0000-01-01T00:00:00Z, and nanoseconds.
  datatype Instant = Instant(seconds: int, nanos: int)

  predicate IsDigit(c: char) { '0' <= c <= '9' }

  predicate AllDigits(s: string) { forall i :: 0 <= i < |s| ==> IsDigit(s[i]) }

  function DigitValue(c: char): int { c as int - '0' as int }

  function Digit(n: int): (c: char)
    requires 0 <= n <= 9
    ensures IsDigit(c) && DigitValue(c) == n
  {
    ('0' as int + n) as char
  }

  predicate LegalZone(z: Zone) {
    z.Offset? ==> 0 <= z.hours <= 24 && 0 <= z.minutes <= 60
  }

  predicate LegalStamp(t: Stamp) {
    && ValidDate(t.date) && 0 <= t.date.year <= 9999
    && 0 <= t.hour <= 23 && 0 <= t.minute <= 59 && 0 <= t.second <= 59
    && AllDigits(t.fraction) && LegalZone(t.zone)
    && (t.comma ==> t.fraction != "") && (t.shortHour ==> t.hour <= 9)
  }

  function ZoneSeconds(z: Zone): int {
    match z
    case Zulu => 0
    case Offset(west, h, m) => if west then -60 * (60 * h + m) else 60 * (60 * h + m)
  }

  function Number(s: string): int {
    if s == "" then 0 else 10 * Number(s[..|s| - 1]) + DigitValue(s[|s| - 1])
  }

  function Nanos(fraction: string): int { Number((fraction + "000000000")[..9]) }

  function Denote(t: Stamp): Instant
    requires ValidDate(t.date)
  {
    Instant(SECONDS_PER_DAY * DayNumber(t.date) + 3600 * t.hour + 60 * t.minute + t.second - ZoneSeconds(t.zone),
            Nanos(t.fraction))
  }

  // ---- Printing ----

  function Quad(n: int): string
    requires 0 <= n <= 9999
  {
    [Digit(n / 1000), Digit(n / 100 % 10), Digit(n / 10 % 10), Digit(n % 10)]
  }

  function ZoneText(z: Zone): string
    requires LegalZone(z)
  {
    match z
    case Zulu => "Z"
    case Offset(west, h, m) =>
      [if west then '-' else '+', Digit(h / 10), Digit(h % 10), ':', Digit(m / 10), Digit(m % 10)]
  }

  predicate LegalClock(t: Stamp) {
    1 <= t.date.month <= 12 && 1 <= t.date.day <= 31
    && 0 <= t.hour <= 23 && 0 <= t.minute <= 59 && 0 <= t.second <= 59
  }

  // Everything between the year and the fraction.
  function ClockText(t: Stamp): (s: string)
    requires LegalClock(t)
  {
    ['-', Digit(t.date.month / 10), Digit(t.date.month % 10), '-', Digit(t.date.day / 10), Digit(t.date.day % 10),
     'T', Digit(t.hour / 10), Digit(t.hour % 10), ':', Digit(t.minute / 10), Digit(t.minute % 10),
     ':', Digit(t.second / 10), Digit(t.second % 10)]
  }

  function Tail(fraction: string, comma: bool, zone: Zone): string
    requires LegalZone(zone)
  {
    (if fraction == "" then "" else (if comma then "," else ".") + fraction) + ZoneText(zone)
  }

  // The text with an hour of two digits.
  function Padded(t: Stamp): (s: string)
    requires LegalStamp(t)
    ensures |s| >= 20
  {
    Quad(t.date.year) + ClockText(t) + Tail(t.fraction, t.comma, t.zone)
  }

  function Render(t: Stamp): string
    requires LegalStamp(t)
  {
    if t.shortHour then Padded(t)[..11] + Padded(t)[12..] else Padded(t)
  }

  // ---- Parsing ----

  function Two(s: string, i: nat): Option<int>
    requires i + 2 <= |s|
  {
    if IsDigit(s[i]) && IsDigit(s[i + 1]) then Some(10 * DigitValue(s[i]) + DigitValue(s[i + 1])) else None
  }

  predicate InRange(n: Option<int>, lo: int, hi: int) {
    n.Some? && lo <= n.value <= hi
  }

  function DigitRun(s: string): (n: nat)
    ensures n <= |s| && AllDigits(s[..n]) && (n < |s| ==> !IsDigit(s[n]))
  {
    if s == "" || !IsDigit(s[0]) then 0
    else
      var n := 1 + DigitRun(s[1..]);
      assert s[..n] == [s[0]] + s[1..][..n - 1];
      n
  }

  function ParseZone(s: string): Option<Zone> {
    if s == "Z" then Some(Zulu)
    else if |s| != 6 || (s[0] != '+' && s[0] != '-') || s[3] != ':' then None
    else
      var h, m := Two(s, 1), Two(s, 4);
      if InRange(h, 0, 24) && InRange(m, 0, 60) then Some(Offset(s[0] == '-', h.value, m.value)) else None
  }

  // Date and time of day: the first nineteen characters.
  function DecodeHead(s: string): (t: Option<Stamp>)
    requires |s| >= 19
    ensures t.Some? ==> ValidDate(t.value.date)
  {
    if s[4] != '-' || s[7] != '-' || s[10] != 'T' || s[13] != ':' || s[16] != ':' then None
    else
      var century, year, mo, d := Two(s, 0), Two(s, 2), Two(s, 5), Two(s, 8);
      var h, mi, sec := Two(s, 11), Two(s, 14), Two(s, 17);
      if century.None? || year.None? || !InRange(mo, 1, 12) then None
      else
        var y := 100 * century.value + year.value;
        if InRange(d, 1, DaysIn(mo.value, y)) && InRange(h, 0, 23) && InRange(mi, 0, 59) && InRange(sec, 0, 59)
        then Some(Stamp(Date(y, mo.value, d.value), h.value, mi.value, sec.value, "", Zulu, false, false))
        else None
  }

  // How many digits follow a leading mark.
  function FractionDigits(s: string): (n: nat)
    ensures n > 0 ==> n < |s|
  {
    if s != "" && (s[0] == '.' || s[0] == ',') then DigitRun(s[1..]) else 0
  }

  // Optional fraction, then the zone: everything from the twentieth character.
  function DecodeTail(s: string): Option<(string, bool, Zone)> {
    var run := FractionDigits(s);
    var zone := ParseZone(if run == 0 then s else s[1 + run..]);
    if zone.None? then None
    else Some(if run == 0 then ("", false, zone.value) else (s[1..1 + run], s[0] == ',', zone.value))
  }

  function DecodePadded(s: string): (t: Option<Stamp>)
    ensures t.Some? ==> ValidDate(t.value.date)
  {
    if |s| < 19 then None
    else
      var head, tail := DecodeHead(s), DecodeTail(s[19..]);
      if head.None? || tail.None? then None
      else Some(head.value.(fraction := tail.value.0, comma := tail.value.1, zone := tail.value.2))
  }

  predicate ShortHour(s: string) { |s| > 12 && IsDigit(s[11]) && s[12] == ':' }

  // The hour may have one digit only.
  function Decode(s: string): (t: Option<Stamp>)
    ensures t.Some? ==> ValidDate(t.value.date)
  {
    if !ShortHour(s) then DecodePadded(s)
    else
      var t := DecodePadded(s[..11] + "0" + s[11..]);
      if t.None? then None else Some(t.value.(shortHour := true))
  }

  function Parse(s: string): Option<Instant> {
    var t := Decode(s);
    if t.None? then None else Some(Denote(t.value))
  }

  // ---- Parsing and rendering are inverse ----

  lemma {:induction false} DigitRunStops(f: string, z: string)
    requires AllDigits(f) && z != "" && !IsDigit(z[0])
    ensures DigitRun(f + z) == |f|
  {
    if f == "" {
      assert f + z == z;
    } else {
      assert (f + z)[1..] == f[1..] + z;
      DigitRunStops(f[1..], z);
    }
  }

  lemma ZoneTextOf(s: string)
    requires ParseZone(s).Some?
    ensures LegalZone(ParseZone(s).value) && ZoneText(ParseZone(s).value) == s
  {
  }

  lemma ZoneReads(zone: Zone)
    requires LegalZone(zone)
    ensures var z := ZoneText(zone);
            ParseZone(z) == Some(zone) && z != "" && !IsDigit(z[0]) && z[0] != '.' && z[0] != ','
  {
  }

  lemma DecodeTailOfTail(fraction: string, comma: bool, zone: Zone)
    requires AllDigits(fraction) && LegalZone(zone) && (comma ==> fraction != "")
    ensures DecodeTail(Tail(fraction, comma, zone)) == Some((fraction, comma, zone))
  {
    ZoneReads(zone);
    if fraction == "" {
      assert Tail(fraction, comma, zone) == ZoneText(zone);
    } else {
      FractionReads(fraction, if comma then ',' else '.', ZoneText(zone), zone);
      assert (if comma then "," else ".") == [if comma then ',' else '.'];
    }
  }

  lemma FractionReads(fraction: string, mark: char, z: string, zone: Zone)
    requires AllDigits(fraction) && fraction != "" && (mark == '.' || mark == ',')
    requires z != "" && !IsDigit(z[0]) && ParseZone(z) == Some(zone)
    ensures DecodeTail([mark] + fraction + z) == Some((fraction, mark == ',', zone))
  {
    var s := [mark] + fraction + z;
    assert s[1..] == fraction + z && s[1..1 + |fraction|] == fraction && s[1 + |fraction|..] == z;
    DigitRunStops(fraction, z);
  }

  lemma TailOfDecodeTail(s: string)
    requires DecodeTail(s).Some?
    ensures var (fraction, comma, zone) := DecodeTail(s).value;
            AllDigits(fraction) && LegalZone(zone) && (comma ==> fraction != "") && Tail(fraction, comma, zone) == s
  {
    var run := FractionDigits(s);
    if run == 0 {
      ZoneTextOf(s);
    } else {
      ZoneTextOf(s[1 + run..]);
      assert s[1..][..run] == s[1..1 + run];
      ThreeParts(s, 1 + run);
      assert [s[0]] == if s[0] == ',' then "," else ".";
    }
  }

  lemma ThreeParts(s: string, n: nat)
    requires 1 <= n <= |s|
    ensures s == [s[0]] + s[1..n] + s[n..]
  {
  }

  // Every legal stamp is read back from its text.
  lemma DecodeRender(t: Stamp)
    requires LegalStamp(t)
    ensures Decode(Render(t)) == Some(t)
  {
    var s := Padded(t);
    DecodeOfPadded(t);
    HeadPrints(t, Tail(t.fraction, t.comma, t.zone));
    if t.shortHour {
      HourDigits(s, t);
      Shortened(s);
    }
  }

  lemma HourDigits(s: string, t: Stamp)
    requires Prints(s, t)
    ensures s[11] == Digit(t.hour / 10) && IsDigit(s[12]) && s[13] == ':'
    ensures t.hour <= 9 ==> s[11] == '0'
  {
  }

  // Dropping a zero from the hour and putting it back.
  lemma Shortened(s: string)
    requires |s| >= 14 && s[11] == '0' && IsDigit(s[12]) && s[13] == ':'
    ensures var r := s[..11] + s[12..]; ShortHour(r) && r[..11] + "0" + r[11..] == s
  {
    var r := s[..11] + s[12..];
    assert r[11] == s[12] && r[12] == s[13];
  }

  lemma DecodeOfPadded(t: Stamp)
    requires LegalStamp(t)
    ensures DecodePadded(Padded(t)) == Some(t.(shortHour := false))
  {
    var s, tail := Padded(t), Tail(t.fraction, t.comma, t.zone);
    assert s[19..] == tail;
    DecodeTailOfTail(t.fraction, t.comma, t.zone);
    HeadPrints(t, tail);
    PrintsDecode(s, t);
  }

  predicate TwoAt(s: string, i: nat, n: int)
    requires i + 2 <= |s|
  {
    0 <= n <= 99 && s[i] == Digit(n / 10) && s[i + 1] == Digit(n % 10)
  }

  lemma TwoReads(s: string, i: nat, n: int)
    requires i + 2 <= |s|
    ensures Two(s, i) == Some(n) <==> TwoAt(s, i, n)
  {
  }

  // The first nineteen characters, one by one.
  predicate Prints(s: string, t: Stamp) {
    && |s| >= 19 && 0 <= t.date.year <= 9999
    && TwoAt(s, 0, t.date.year / 100) && TwoAt(s, 2, t.date.year % 100)
    && TwoAt(s, 5, t.date.month) && TwoAt(s, 8, t.date.day)
    && TwoAt(s, 11, t.hour) && TwoAt(s, 14, t.minute) && TwoAt(s, 17, t.second)
    && s[4] == '-' && s[7] == '-' && s[10] == 'T' && s[13] == ':' && s[16] == ':'
  }

  lemma QuadHalves(y: int)
    requires 0 <= y <= 9999
    ensures TwoAt(Quad(y), 0, y / 100) && TwoAt(Quad(y), 2, y % 100)
  {
    FourDigits(y, y / 100, y % 100);
  }

  lemma FourDigits(y: int, c: int, d: int)
    requires y == 100 * c + d && 0 <= c <= 99 && 0 <= d <= 99
    ensures y / 1000 == c / 10 && y / 100 % 10 == c % 10 && y / 10 % 10 == d / 10 && y % 10 == d % 10
  {
    Quotient(y, 1000, c / 10, 100 * (c % 10) + d);
    Quotient(y, 100, c, d);
    Quotient(y, 10, 10 * c + d / 10, d % 10);
  }

  lemma HeadPrints(t: Stamp, tail: string)
    requires LegalStamp(t)
    ensures Prints(Quad(t.date.year) + ClockText(t) + tail, t)
  {
    var clock, s := ClockText(t), Quad(t.date.year) + ClockText(t) + tail;
    QuadHalves(t.date.year);
    assert forall i :: 4 <= i < 19 ==> s[i] == clock[i - 4];
  }

  lemma PrintsHead(s: string, t: Stamp)
    requires Prints(s, t) && LegalClock(t)
    ensures s[..19] == Quad(t.date.year) + ClockText(t)
  {
    QuadHalves(t.date.year);
    assert s[..4] == Quad(t.date.year);
    assert s[4..19] == ClockText(t);
    assert s[..19] == s[..4] + s[4..19];
  }

  lemma PrintsDecode(s: string, t: Stamp)
    requires Prints(s, t) && LegalStamp(t)
    ensures DecodeHead(s) == Some(t.(fraction := "", zone := Zulu, comma := false, shortHour := false))
  {
    TwoReads(s, 0, t.date.year / 100);
    TwoReads(s, 2, t.date.year % 100);
    TwoReads(s, 5, t.date.month);
    TwoReads(s, 8, t.date.day);
    TwoReads(s, 11, t.hour);
    TwoReads(s, 14, t.minute);
    TwoReads(s, 17, t.second);
  }

  lemma DecodePrints(s: string)
    requires |s| >= 19 && DecodeHead(s).Some?
    ensures LegalStamp(DecodeHead(s).value) && Prints(s, DecodeHead(s).value)
  {
    var t := DecodeHead(s).value;
    var century, year := Two(s, 0).value, Two(s, 2).value;
    TwoReads(s, 0, century);
    TwoReads(s, 2, year);
    assert t.date.year / 100 == century && t.date.year % 100 == year;
    TwoReads(s, 5, t.date.month);
    TwoReads(s, 8, t.date.day);
    TwoReads(s, 11, t.hour);
    TwoReads(s, 14, t.minute);
    TwoReads(s, 17, t.second);
  }

  // Every accepted text is the text of the legal stamp read from it.
  lemma RenderDecode(s: string)
    requires Decode(s).Some?
    ensures LegalStamp(Decode(s).value) && Render(Decode(s).value) == s
  {
    if ShortHour(s) {
      var w := s[..11] + "0" + s[11..];
      PaddedOfDecode(w);
      assert w[11] == '0' && w[..11] + w[12..] == s;
    } else {
      PaddedOfDecode(s);
    }
  }

  lemma PaddedOfDecode(s: string)
    requires DecodePadded(s).Some?
    ensures var t := DecodePadded(s).value;
            LegalStamp(t) && !t.shortHour && Padded(t) == s && TwoAt(s, 11, t.hour)
  {
    var t := DecodePadded(s).value;
    DecodePrints(s);
    PrintsHead(s, t);
    TailOfDecodeTail(s[19..]);
    Glued(s, 19, Quad(t.date.year) + ClockText(t), Tail(t.fraction, t.comma, t.zone));
  }

  lemma Glued(s: string, n: nat, a: string, b: string)
    requires n <= |s| && s[..n] == a && s[n..] == b
    ensures s == a + b
  {
  }

  // The parser accepts exactly the texts of legal stamps, with their meaning.
  lemma ParseIsDenotation(s: string, t: Instant)
    ensures Parse(s) == Some(t) <==> exists p: Stamp :: LegalStamp(p) && Render(p) == s && Denote(p) == t
  {
    if Decode(s).Some? {
      RenderDecode(s);
    }
    forall p: Stamp | LegalStamp(p) && Render(p) == s
      ensures Decode(s) == Some(p)
    {
      DecodeRender(p);
    }
  }

  // ---- Instants and their texts ----

  // The stamp of an instant seen from a zone, cut to whole seconds as Format does.
  function StampOf(t: Instant, z: Zone): (p: Stamp)
    ensures LegalClock(p)
  {
    var local := t.seconds + ZoneSeconds(z);
    var clock := local % SECONDS_PER_DAY;
    Stamp(DateOf(local / SECONDS_PER_DAY), clock / 3600, clock / 60 % 60, clock % 60, "", z, false, false)
  }

  function Truncated(t: Instant): Instant { Instant(t.seconds, 0) }

  lemma NoFraction()
    ensures Nanos("") == 0
  {
    assert ("" + "000000000")[..9] == Zeros(9);
    ZerosNumber(9);
  }

  function Zeros(k: nat): (s: string) { seq(k, i => '0') }

  lemma {:induction false} ZerosNumber(k: nat)
    ensures Number(Zeros(k)) == 0
  {
    if k > 0 {
      assert Zeros(k)[..k - 1] == Zeros(k - 1);
      ZerosNumber(k - 1);
    }
  }

  lemma StampDenotes(t: Instant, z: Zone)
    ensures Denote(StampOf(t, z)) == Truncated(t)
  {
    var local := t.seconds + ZoneSeconds(z);
    var clock := local % SECONDS_PER_DAY;
    var p := StampOf(t, z);
    assert DayNumber(p.date) == local / SECONDS_PER_DAY;
    ClockParts(clock);
    NoFraction();
  }

  lemma ClockParts(c: int)
    ensures c == 3600 * (c / 3600) + 60 * (c / 60 % 60) + c % 60
  {
    var minutes := c / 60;
    assert c == 60 * minutes + c % 60 && minutes == 60 * (minutes / 60) + minutes % 60;
    Quotient(c, 3600, minutes / 60, 60 * (minutes % 60) + c % 60);
  }

  // An instant printed in any legal zone parses back to itself, cut to seconds.
  lemma PrintedInAnyZone(t: Instant, z: Zone)
    requires LegalZone(z) && 0 <= StampOf(t, z).date.year <= 9999
    ensures LegalStamp(StampOf(t, z)) && Parse(Render(StampOf(t, z))) == Some(Truncated(t))
  {
    StampDenotes(t, z);
    DecodeRender(StampOf(t, z));
  }

  // Conversely, a text without fraction and with a full hour is what Format prints for
  // its instant in its own zone.
  lemma TextIsCanonical(s: string)
    requires Decode(s).Some? && Decode(s).value.fraction == "" && !Decode(s).value.shortHour
    ensures StampOf(Parse(s).value, Decode(s).value.zone) == Decode(s).value
  {
    RenderDecode(s);
    var p := Decode(s).value;
    var clock := 3600 * p.hour + 60 * p.minute + p.second;
    ClockFields(p.hour, p.minute, p.second);
    var q := StampOf(Denote(p), p.zone);
    DayAndClock(Denote(p).seconds + ZoneSeconds(p.zone), DayNumber(p.date), clock);
    DayNumberInjective(q.date, p.date);
  }

  lemma DayAndClock(n: int, day: int, clock: int)
    requires 0 <= clock < SECONDS_PER_DAY && n == SECONDS_PER_DAY * day + clock
    ensures n / SECONDS_PER_DAY == day && n % SECONDS_PER_DAY == clock
  {
  }

  lemma ClockFields(h: int, m: int, s: int)
    requires 0 <= h <= 23 && 0 <= m <= 59 && 0 <= s <= 59
    ensures var c := 3600 * h + 60 * m + s;
            0 <= c < SECONDS_PER_DAY && c / 3600 == h && c / 60 % 60 == m && c % 60 == s
  {
    var c := 3600 * h + 60 * m + s;
    Quotient(c, 3600, h, 60 * m + s);
    Quotient(c, 60, 60 * h + m, s);
    Quotient(60 * h + m, 60, h, m);
  }

  // ---- Format(time.RFC3339) of any UTC time ----

  function Decimal(n: nat): string {
    if n < 10 then [Digit(n)] else Decimal(n / 10) + [Digit(n % 10)]
  }

  // Four digits at least, more for later years, a sign for earlier ones.
  function YearText(y: int): string {
    var n := if y < 0 then -y else y;
    (if y < 0 then "-" else "") + if n <= 9999 then Quad(n) else Decimal(n)
  }

  function PrintUtc(t: Instant): string {
    var p := StampOf(t, Zulu);
    YearText(p.date.year) + ClockText(p) + "Z"
  }

  lemma {:induction false} DecimalDigits(n: nat)
    ensures AllDigits(Decimal(n)) && |Decimal(n)| >= 1
    ensures n > 9999 ==> |Decimal(n)| >= 5
  {
    if n >= 10 {
      DecimalDigits(n / 10);
      if n >= 100 {
        DecimalDigits(n / 10 / 10);
        if n >= 1000 {
          DecimalDigits(n / 10 / 10 / 10);
        }
      }
    }
  }

  // What ListDesired prints parses back, cut to seconds, exactly for the years
  // 0 to 9999; any other year gives a text that is not a timestamp.
  lemma UtcRoundTrip(t: Instant)
    ensures Parse(PrintUtc(t)) ==
            if 0 <= StampOf(t, Zulu).date.year <= 9999 then Some(Truncated(t)) else None
  {
    var p := StampOf(t, Zulu);
    if 0 <= p.date.year <= 9999 {
      PrintedInAnyZone(t, Zulu);
      PlainYear(p);
    } else {
      NoTimestamp(p.date.year, ClockText(p) + "Z");
      assert PrintUtc(t) == YearText(p.date.year) + (ClockText(p) + "Z");
    }
  }

  lemma PlainYear(p: Stamp)
    requires LegalStamp(p) && p.fraction == "" && p.zone == Zulu && !p.shortHour
    ensures YearText(p.date.year) + ClockText(p) + "Z" == Render(p)
  {
  }

  lemma NoTimestamp(y: int, rest: string)
    requires !(0 <= y <= 9999)
    ensures Decode(YearText(y) + rest).None?
  {
    var s := YearText(y) + rest;
    if y < 0 {
      assert s[0] == '-';
    } else {
      DecimalDigits(y);
      assert s[4] == Decimal(y)[4];
    }
  }

  // ---- What offsets, fractions and whole texts mean ----

  // The same clock in a zone west of Greenwich is that much later, and east of it that
  // much earlier, whatever the fraction.
  lemma OffsetShifts(p: Stamp, west: bool, h: int, m: int)
    requires LegalStamp(p) && 0 <= h <= 24 && 0 <= m <= 60
    ensures var utc := Parse(Render(p.(zone := Zulu)));
            var there := Parse(Render(p.(zone := Offset(west, h, m))));
            && utc.Some? && there.Some? && there.value.nanos == utc.value.nanos
            && there.value.seconds == utc.value.seconds + if west then 3600 * h + 60 * m else -3600 * h - 60 * m
  {
    DecodeRender(p.(zone := Zulu));
    DecodeRender(p.(zone := Offset(west, h, m)));
  }

  // The parser's own forms, a comma and a short hour, mean the same as the standard ones.
  lemma CommaAgrees(p: Stamp)
    requires LegalStamp(p) && p.fraction != ""
    ensures Parse(Render(p.(comma := true))) == Parse(Render(p.(comma := false)))
  {
    SameMoment(p.(comma := true), p.(comma := false));
  }

  lemma ShortHourAgrees(p: Stamp)
    requires LegalStamp(p) && p.hour <= 9
    ensures Parse(Render(p.(shortHour := true))) == Parse(Render(p.(shortHour := false)))
  {
    SameMoment(p.(shortHour := true), p.(shortHour := false));
  }

  lemma SameMoment(p: Stamp, q: Stamp)
    requires LegalStamp(p) && LegalStamp(q) && Denote(p) == Denote(q)
    ensures Parse(Render(p)) == Parse(Render(q))
  {
    DecodeRender(p);
    DecodeRender(q);
  }

  // Printed texts end in Z, at their twentieth character in the years 0 to 9999.
  lemma PrintsZulu(t: Instant)
    ensures var s := PrintUtc(t); s != "" && s[|s| - 1] == 'Z'
    ensures 0 <= StampOf(t, Zulu).date.year <= 9999 ==> |PrintUtc(t)| == 20
  {
  }

  function Pow10(k: nat): int { if k == 0 then 1 else 10 * Pow10(k - 1) }

  lemma {:induction false} NumberScaled(s: string, k: nat)
    ensures Number(s + Zeros(k)) == Number(s) * Pow10(k)
  {
    if k == 0 {
      assert s + Zeros(0) == s;
    } else {
      assert (s + Zeros(k))[..|s + Zeros(k)| - 1] == s + Zeros(k - 1);
      NumberScaled(s, k - 1);
    }
  }

  lemma PaddedTo(fraction: string, n: nat)
    requires |fraction| <= n
    ensures (fraction + Zeros(n))[..n] == fraction + Zeros(n - |fraction|)
  {
  }

  lemma NineZeros()
    ensures Zeros(9) == "000000000"
  {
  }

  // A fraction of up to nine digits counts that part of a second; others are cut to nine.
  lemma NanosOf(fraction: string)
    ensures |fraction| <= 9 ==> Nanos(fraction) == Number(fraction) * Pow10(9 - |fraction|)
    ensures |fraction| > 9 ==> Nanos(fraction) == Number(fraction[..9])
  {
    NineZeros();
    if |fraction| <= 9 {
      PaddedTo(fraction, 9);
      NumberScaled(fraction, 9 - |fraction|);
    } else {
      assert (fraction + "000000000")[..9] == fraction[..9];
    }
  }

  // Numbers are read in decimal.
  lemma {:induction false} NumberOfDecimal(n: nat)
    ensures Number(Decimal(n)) == n
  {
    if n < 10 {
      assert Decimal(n)[..0] == "";
    } else {
      NumberOfDecimal(n / 10);
      assert Decimal(n)[..|Decimal(n)| - 1] == Decimal(n / 10);
    }
  }

  // A text and the stamp it is read as.
  lemma StampText(s: string, p: Stamp)
    requires LegalStamp(p) && !p.shortHour && Prints(s, p) && s[19..] == Tail(p.fraction, p.comma, p.zone)
    ensures Parse(s) == Some(Denote(p))
  {
    PrintsHead(s, p);
    Glued(s, 19, Quad(p.date.year) + ClockText(p), Tail(p.fraction, p.comma, p.zone));
    DecodeRender(p);
  }

  lemma Hundredths(a: int, b: int)
    requires 0 <= a <= 9 && 0 <= b <= 9
    ensures Nanos([Digit(a), Digit(b)]) == 10000000 * (10 * a + b)
  {
    var f := [Digit(a), Digit(b)];
    NanosOf(f);
    assert f[..1] == [Digit(a)] && [Digit(a)][..0] == "";
    assert Number([Digit(a)]) == a;
    assert Pow10(3) == 1000;
    assert Pow10(5) == 100000;
    assert Pow10(7) == 10000000;
  }

  lemma ExampleText(s: string, p: Stamp)
    requires s == "1985-04-12T23:20:50.52Z"
    requires p == Stamp(Date(1985, 4, 12), 23, 20, 50, "52", Zulu, false, false)
    ensures Prints(s, p) && s[19..] == Tail(p.fraction, p.comma, p.zone)
  {
    assert s[19..] == ".52Z";
  }

  lemma ExampleMoment(p: Stamp)
    requires p == Stamp(Date(1985, 4, 12), 23, 20, 50, "52", Zulu, false, false)
    ensures Denote(p) == Instant(62649415250, 520000000)
  {
    Hundredths(5, 2);
    assert MonthStart(4, 1985) == 90;
    assert p.fraction == [Digit(5), Digit(2)];
  }

  // The first example of section 5.8 of RFC 3339, as seconds since year 0.
  lemma RfcExample(s: string)
    requires s == "1985-04-12T23:20:50.52Z"
    ensures Parse(s) == Some(Instant(62649415250, 520000000))
  {
    var p := Stamp(Date(1985, 4, 12), 23, 20, 50, "52", Zulu, false, false);
    ExampleText(s, p);
    ExampleMoment(p);
    StampText(s, p);
  }

  // Its leap second is refused.
  lemma LeapSecond(s: string)
    requires s == "1990-12-31T23:59:60Z"
    ensures Parse(s) == None
  {
    assert Two(s, 17) == Some(60);
  }
}
