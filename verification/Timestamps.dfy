/** The history's times: `format_ts` writes RFC 3339 in UTC, `parse_ts` reads it and more. */
module Timestamps {
  import opened Basics
  import opened Calendar

  const DAY := 86400

  function DigitOf(n: int): (c: char)
    requires 0 <= n < 10
    ensures IsDigit(c)
  {
    '0' + n as char
  }

  /** `n` in decimal, with zeros in front to make `width` digits: `{n:0width}`. */
  function Pad(n: nat, width: nat): (s: string)
    ensures AllDigits(s) && |s| >= width && s != ""
    decreases n, width
  {
    if n < 10 && width <= 1 then [DigitOf(n)]
    else Pad(n / 10, if width == 0 then 0 else width - 1) + [DigitOf(n % 10)]
  }

  /** `{n:0width}` of a number that may be negative: the sign counts towards the width. */
  function PadSigned(n: int, width: nat): string {
    if n < 0 then "-" + Pad(-n, if width == 0 then 0 else width - 1) else Pad(n, width)
  }

  function FormatTs(unix: int): string {
    var date := CivilFromDays(unix / DAY);
    DateOfDaysIsCounted(unix / DAY);
    var s := unix % DAY;
    Written(PadSigned(date.y, 4), Pad(date.m, 2), Pad(date.d, 2),
            Pad(s / 3600, 2), Pad(s / 60 % 60, 2), Pad(s % 60, 2))
  }

  function DatePart(y: string, mo: string, d: string): string {
    y + ("-" + (mo + ("-" + d)))
  }

  function TimePart(h: string, mi: string, sec: string): string {
    h + (":" + (mi + (":" + sec)))
  }

  /** The fields of a time, with the punctuation between them. */
  function Written(y: string, mo: string, d: string, h: string, mi: string, sec: string): string {
    DatePart(y, mo, d) + ("T" + (TimePart(h, mi, sec) + "Z"))
  }

  lemma DateOfDaysIsCounted(z: int)
    ensures 1 <= CivilFromDays(z).m <= 12 && 1 <= CivilFromDays(z).d <= 31
  {
    DaysOfDate(z);
  }

  // Reading.

  function Num(s: string, from: nat, to: nat): Option<nat>
    requires from <= to
  {
    if to <= |s| && AllDigits(s[from..to]) then Some(NumberOf(s[from..to])) else None
  }

  /** The date and time of day, or `None` where the first 19 characters do not write one. */
  function Instant(s: string): Option<int>
    requires |s| >= 20
  {
    if s[4] != '-' || s[7] != '-' || (s[10] != 'T' && s[10] != 't' && s[10] != ' ') then None
    else if s[13] != ':' || s[16] != ':' then None
    else
      var y, mo, d := Num(s, 0, 4), Num(s, 5, 7), Num(s, 8, 10);
      var h, mi, sec := Num(s, 11, 13), Num(s, 14, 16), Num(s, 17, 19);
      if y.None? || mo.None? || d.None? || h.None? || mi.None? || sec.None? then None
      else if !(1 <= mo.value <= 12) || !(1 <= d.value <= 31) || h.value > 23 || mi.value > 59 || sec.value > 60
      then None
      else Some(DaysFromCivil(y.value, mo.value, d.value) * DAY + h.value * 3600 + mi.value * 60 + sec.value)
  }

  /** Where the fraction of a second ends, if it is well formed. */
  function FractionEnd(s: string): (r: Option<nat>)
    requires |s| >= 20
    ensures r.Some? ==> r.value <= |s|
  {
    if s[19] != '.' then Some(19)
    else if DigitRun(s[20..]) == 0 then None else Some(20 + DigitRun(s[20..]))
  }

  /** The minutes east of UTC that the rest of the text says. */
  function ZoneAt(s: string, at: nat): Option<int>
    requires at <= |s|
  {
    if at == |s| then None
    else if s[at] == 'Z' || s[at] == 'z' then (if at + 1 == |s| then Some(0) else None)
    else if (s[at] == '+' || s[at] == '-') && at + 6 == |s| && s[at + 3] == ':' then
      var h, m := Num(s, at + 1, at + 3), Num(s, at + 4, at + 6);
      if h.None? || m.None? then None
      else
        var minutes := h.value * 60 + m.value;
        Some(if s[at] == '+' then minutes else -minutes)
    else None
  }

  function ParsedTs(s: string): Option<int> {
    if |s| < 20 then None
    else
      var instant, end := Instant(s), FractionEnd(s);
      if instant.None? || end.None? then None
      else
        var zone := ZoneAt(s, end.value);
        if zone.None? then None else Some(instant.value - zone.value * 60)
  }

  method ParseTs(s: string) returns (r: Option<int>)
    ensures r == ParsedTs(s)
  {
    hide Instant, ZoneAt;
    if |s| < 20 {
      return None;
    }
    var instant := Instant(s);
    if instant.None? {
      return None;
    }
    var at := 19;
    if s[at] == '.' {
      at := at + 1;
      var start := at;
      while at < |s| && IsDigit(s[at])
        invariant start <= at <= |s|
        invariant DigitRun(s[start..]) == at - start + DigitRun(s[at..])
      {
        DropTwice(s, at, 1);
        at := at + 1;
      }
      if at == start {
        return None;
      }
    }
    var zone := ZoneAt(s, at);
    r := if zone.None? then None else Some(instant.value - zone.value * 60);
  }

  // Round trip.

  lemma {:induction false} PadReadsBack(n: nat, width: nat)
    ensures NumberOf(Pad(n, width)) == n
    ensures width > 0 && n < Power10(width) ==> |Pad(n, width)| == width
    ensures width > 0 && n >= Power10(width) ==> |Pad(n, width)| > width
    decreases n, width
  {
    var s := Pad(n, width);
    if n < 10 && width <= 1 {
      assert NumberOf(s[..0]) == 0;
    } else {
      var w := if width == 0 then 0 else width - 1;
      var more := Pad(n / 10, w);
      PadReadsBack(n / 10, w);
      assert s[..|s| - 1] == more;
      assert s[|s| - 1] as int - '0' as int == n % 10;
      if width > 1 {
        assert n < Power10(width) <==> n / 10 < Power10(w);
      }
    }
  }

  lemma Pad2(n: int)
    requires 0 <= n < 100
    ensures |Pad(n, 2)| == 2 && NumberOf(Pad(n, 2)) == n
  {
    PadReadsBack(n, 2);
    assert Power10(2) == 100;
  }

  lemma Pad4(n: int)
    requires n >= 0
    ensures NumberOf(Pad(n, 4)) == n && (|Pad(n, 4)| == 4 <==> n < 10000)
  {
    PadReadsBack(n, 4);
    assert Power10(4) == 10000;
  }

  lemma NumOf(s: string, from: nat, digits: string)
    requires from + |digits| <= |s| && s[from..from + |digits|] == digits && AllDigits(digits)
    ensures Num(s, from, from + |digits|) == Some(NumberOf(digits))
  {
  }

  lemma DateFields(y: string, mo: string, d: string)
    requires |y| == 4 && |mo| == |d| == 2
    ensures var p := DatePart(y, mo, d);
            |p| == 10 && p[0..4] == y && p[4] == '-' && p[5..7] == mo && p[7] == '-' && p[8..10] == d
  {
  }

  lemma TimeFields(h: string, mi: string, sec: string)
    requires |h| == |mi| == |sec| == 2
    ensures var p := TimePart(h, mi, sec);
            |p| == 8 && p[0..2] == h && p[2] == ':' && p[3..5] == mi && p[5] == ':' && p[6..8] == sec
  {
  }

  lemma WrittenFields(y: string, mo: string, d: string, h: string, mi: string, sec: string)
    requires |y| == 4 && |mo| == |d| == |h| == |mi| == |sec| == 2
    ensures var s := Written(y, mo, d, h, mi, sec);
            && |s| == 20 && s[0..4] == y && s[4] == '-' && s[5..7] == mo && s[7] == '-' && s[8..10] == d
            && s[10] == 'T' && s[11..13] == h && s[13] == ':' && s[14..16] == mi && s[16] == ':'
            && s[17..19] == sec && s[19] == 'Z'
  {
    hide DatePart, TimePart;
    DateFields(y, mo, d);
    TimeFields(h, mi, sec);
    var s, p, q := Written(y, mo, d, h, mi, sec), DatePart(y, mo, d), TimePart(h, mi, sec);
    assert forall i | 0 <= i < 10 :: s[i] == p[i];
    assert forall i | 0 <= i < 8 :: s[i + 11] == q[i];
    assert s[0..4] == p[0..4] && s[5..7] == p[5..7] && s[8..10] == p[8..10];
    assert s[11..13] == q[0..2] && s[14..16] == q[3..5] && s[17..19] == q[6..8];
  }

  lemma {:induction false} WrittenReads(y: string, mo: string, d: string, h: string, mi: string, sec: string)
    requires |y| == 4 && |mo| == |d| == |h| == |mi| == |sec| == 2
    requires AllDigits(y) && AllDigits(mo) && AllDigits(d) && AllDigits(h) && AllDigits(mi) && AllDigits(sec)
    requires 1 <= NumberOf(mo) <= 12 && 1 <= NumberOf(d) <= 31
    requires NumberOf(h) <= 23 && NumberOf(mi) <= 59 && NumberOf(sec) <= 60
    ensures ParsedTs(Written(y, mo, d, h, mi, sec))
         == Some(DaysFromCivil(NumberOf(y), NumberOf(mo), NumberOf(d)) * DAY
                 + NumberOf(h) * 3600 + NumberOf(mi) * 60 + NumberOf(sec))
  {
    hide NumberOf, DaysFromCivil, Written;
    WrittenFields(y, mo, d, h, mi, sec);
    var s := Written(y, mo, d, h, mi, sec);
    NumOf(s, 0, y);
    NumOf(s, 5, mo);
    NumOf(s, 8, d);
    NumOf(s, 11, h);
    NumOf(s, 14, mi);
    NumOf(s, 17, sec);
  }

  lemma TimeOfDay(s: int)
    requires 0 <= s < DAY
    ensures 0 <= s / 3600 <= 23 && 0 <= s / 60 % 60 <= 59 && 0 <= s % 60 <= 59
    ensures s / 3600 * 3600 + s / 60 % 60 * 60 + s % 60 == s
  {
  }

  /** Writing and reading back gives the time exactly when its year has four digits. */
  lemma FormatReadsBack(unix: int)
    ensures ParsedTs(FormatTs(unix)) == Some(unix) <==> 0 <= CivilFromDays(unix / DAY).y <= 9999
    ensures ParsedTs(FormatTs(unix)).Some? ==> ParsedTs(FormatTs(unix)) == Some(unix)
  {
    hide CivilFromDays, DaysFromCivil, Pad, Written, ParsedTs, PadSigned;
    var date, s := CivilFromDays(unix / DAY), unix % DAY;
    DaysOfDate(unix / DAY);
    DateOfDaysIsCounted(unix / DAY);
    TimeOfDay(s);
    var year := PadSigned(date.y, 4);
    var mo, d, h, mi, sec := Pad(date.m, 2), Pad(date.d, 2), Pad(s / 3600, 2), Pad(s / 60 % 60, 2), Pad(s % 60, 2);
    assert FormatTs(unix) == Written(year, mo, d, h, mi, sec);
    if 0 <= date.y <= 9999 {
      assert year == Pad(date.y, 4) by {
        SignOf(date.y);
      }
      Pad2(date.m);
      Pad2(date.d);
      Pad2(s / 3600);
      Pad2(s / 60 % 60);
      Pad2(s % 60);
      Pad4(date.y);
      WrittenReads(year, mo, d, h, mi, sec);
    } else {
      YearTooLong(date.y);
      assert year <= FormatTs(unix) by {
        StartsWithYear(year, mo, d, h, mi, sec);
      }
      WrongYear(year, FormatTs(unix));
    }
  }

  lemma SignOf(y: int)
    requires y >= 0
    ensures PadSigned(y, 4) == Pad(y, 4)
  {
  }

  lemma StartsWithYear(y: string, mo: string, d: string, h: string, mi: string, sec: string)
    ensures y <= Written(y, mo, d, h, mi, sec)
  {
    assert y <= DatePart(y, mo, d);
  }

  lemma YearTooLong(y: int)
    requires y < 0 || y > 9999
    ensures var s := PadSigned(y, 4); |s| >= 4 && ((|s| > 4 && s[4] != '-') || s[0] == '-')
  {
    if y > 9999 {
      Pad4(y);
    }
  }

  lemma WrongYear(year: string, s: string)
    requires |year| >= 4 && year <= s && ((|year| > 4 && year[4] != '-') || year[0] == '-')
    ensures ParsedTs(s).None?
  {
    if |s| >= 20 && year[0] == '-' {
      assert s[0..4][0] == '-';
    }
  }

  // Offsets.

  predicate Fraction(s: string) {
    s == "" || (s[0] == '.' && |s| > 1 && AllDigits(s[1..]))
  }

  /** `Z`, or a sign, two digits, a colon and two digits. */
  predicate Zone(s: string) {
    || s == "Z" || s == "z"
    || (|s| == 6 && (s[0] == '+' || s[0] == '-') && AllDigits(s[1..3]) && s[3] == ':' && AllDigits(s[4..6]))
  }

  function ZoneMinutes(zone: string): int
    requires Zone(zone)
  {
    if |zone| == 1 then 0
    else
      var minutes := NumberOf(zone[1..3]) * 60 + NumberOf(zone[4..6]);
      if zone[0] == '+' then minutes else -minutes
  }

  function Earlier(t: Option<int>, seconds: int): Option<int> {
    match t
    case None => None
    case Some(unix) => Some(unix - seconds)
  }

  lemma SameInstant(core: string, a: string, b: string)
    requires |core| == 19 && |a| > 0 && |b| > 0
    ensures Instant(core + a) == Instant(core + b)
  {
    hide NumberOf, DaysFromCivil;
    var s, t := core + a, core + b;
    assert s[0..4] == t[0..4] && s[5..7] == t[5..7] && s[8..10] == t[8..10];
    assert s[11..13] == t[11..13] && s[14..16] == t[14..16] && s[17..19] == t[17..19];
  }

  lemma FractionReads(core: string, frac: string, zone: string)
    requires |core| == 19 && Fraction(frac) && Zone(zone)
    ensures FractionEnd(core + (frac + zone)) == Some(19 + |frac|)
  {
    var s := core + (frac + zone);
    assert s[19] == (frac + zone)[0];
    if frac != "" {
      DropTwice(s, 19, 1);
      DropOf(core, frac + zone);
      assert (frac + zone)[1..] == frac[1..] + zone;
      DigitRunOf(frac[1..], zone);
    }
  }

  lemma ZoneReads(before: string, zone: string)
    requires Zone(zone)
    ensures ZoneAt(before + zone, |before|) == Some(ZoneMinutes(zone))
  {
    hide NumberOf, AllDigits;
    var s, at := before + zone, |before|;
    assert forall i | 0 <= i < |zone| :: s[at + i] == zone[i];
    if |zone| == 6 {
      assert s[at] == zone[0] && s[at + 3] == zone[3];
      assert s[at + 1..at + 3] == zone[1..3] && s[at + 4..at + 6] == zone[4..6];
    }
  }

  lemma ZoneNotEmpty(zone: string)
    requires Zone(zone)
    ensures |zone| > 0
  {
  }

  lemma PlainZone()
    ensures Zone("Z") && Fraction("") && ZoneMinutes("Z") == 0
  {
  }

  /** A time with a fraction and an offset reads as the same fields with `Z`, less the offset. */
  lemma OffsetIsTakenOff(core: string, frac: string, zone: string)
    requires |core| == 19 && Fraction(frac) && Zone(zone)
    ensures ParsedTs(core + (frac + zone)) == Earlier(ParsedTs(core + "Z"), ZoneMinutes(zone) * 60)
  {
    hide Instant, FractionEnd, ZoneAt, Zone, ZoneMinutes, Fraction;
    assert Zone("Z") && Fraction("") && ZoneMinutes("Z") == 0 by {
      PlainZone();
    }
    ZoneNotEmpty(zone);
    SameInstant(core, frac + zone, "Z");
    FractionReads(core, frac, zone);
    Assoc(core, frac, zone);
    ZoneReads(core + frac, zone);
    assert "" + "Z" == "Z";
    FractionReads(core, "", "Z");
    ZoneReads(core, "Z");
  }

  /** The fields of a written time are all accepted. */
  predicate Accepted(y: string, mo: string, d: string, h: string, mi: string, sec: string) {
    && |y| == 4 && |mo| == |d| == |h| == |mi| == |sec| == 2
    && AllDigits(y) && AllDigits(mo) && AllDigits(d) && AllDigits(h) && AllDigits(mi) && AllDigits(sec)
    && 1 <= NumberOf(mo) <= 12 && 1 <= NumberOf(d) <= 31
    && NumberOf(h) <= 23 && NumberOf(mi) <= 59 && NumberOf(sec) <= 60
  }

  /** A date and a time of day, with any of three characters between them. */
  predicate DateAndTime(s: string) {
    && |s| == 19
    && s[4] == '-' && s[7] == '-' && (s[10] == 'T' || s[10] == 't' || s[10] == ' ') && s[13] == ':' && s[16] == ':'
    && Accepted(s[0..4], s[5..7], s[8..10], s[11..13], s[14..16], s[17..19])
  }

  lemma InstantIsDateAndTime(s: string)
    requires |s| >= 20
    ensures Instant(s).Some? <==> DateAndTime(s[..19])
  {
    hide NumberOf, DaysFromCivil, AllDigits;
    var core := s[..19];
    assert core[0..4] == s[0..4] && core[5..7] == s[5..7] && core[8..10] == s[8..10];
    assert core[11..13] == s[11..13] && core[14..16] == s[14..16] && core[17..19] == s[17..19];
  }

  /** The texts of section 5.6 of RFC 3339, and those with a space for the `T`: a date and a time of
      day, perhaps a fraction, and a zone. */
  predicate IsTime(s: string, core: string, frac: string, zone: string) {
    DateAndTime(core) && Fraction(frac) && Zone(zone) && s == core + (frac + zone)
  }

  /** `parse_ts` takes exactly these texts. */
  lemma AcceptedTimes(s: string)
    ensures ParsedTs(s).Some? <==> exists core, frac, zone :: IsTime(s, core, frac, zone)
  {
    hide ParsedTs, IsTime;
    if ParsedTs(s).Some? {
      TimeParts(s);
    }
    if core, frac, zone :| IsTime(s, core, frac, zone) {
      assert DateAndTime(core) && Fraction(frac) && Zone(zone) && s == core + (frac + zone) by {
        PartsOf(s, core, frac, zone);
      }
      TimeReads(core, frac, zone);
    }
  }

  lemma PartsOf(s: string, core: string, frac: string, zone: string)
    requires IsTime(s, core, frac, zone)
    ensures DateAndTime(core) && Fraction(frac) && Zone(zone) && s == core + (frac + zone)
  {
  }

  lemma TimeParts(s: string)
    requires ParsedTs(s).Some?
    ensures exists core, frac, zone :: IsTime(s, core, frac, zone)
  {
    InstantIsDateAndTime(s);
    hide Instant, DateAndTime, NumberOf;
    var end := FractionEnd(s).value;
    FractionIs(s);
    assert end >= 19;
    ZoneIs(s, end);
    assert s == s[..19] + (s[19..end] + s[end..]);
    assert IsTime(s, s[..19], s[19..end], s[end..]);
  }

  lemma FractionIs(s: string)
    requires |s| >= 20 && FractionEnd(s).Some?
    ensures 19 <= FractionEnd(s).value <= |s| && Fraction(s[19..FractionEnd(s).value])
  {
    var end := FractionEnd(s).value;
    if s[19] == '.' {
      DigitRunStops(s[20..]);
      assert s[19..end][1..] == s[20..][..end - 20];
    }
  }

  lemma ZoneIs(s: string, end: nat)
    requires end <= |s| && ZoneAt(s, end).Some?
    ensures Zone(s[end..])
  {
    hide NumberOf;
    var zone := s[end..];
    if |zone| == 6 {
      assert zone[1..3] == s[end + 1..end + 3] && zone[4..6] == s[end + 4..end + 6];
    }
  }

  lemma TimeReads(core: string, frac: string, zone: string)
    requires DateAndTime(core) && Fraction(frac) && Zone(zone)
    ensures ParsedTs(core + (frac + zone)).Some?
  {
    assert |core| == 19;
    hide Instant, FractionEnd, ZoneAt, DateAndTime;
    ZoneNotEmpty(zone);
    var s := core + (frac + zone);
    assert s[..19] == core;
    InstantIsDateAndTime(s);
    FractionReads(core, frac, zone);
    Assoc(core, frac, zone);
    ZoneReads(core + frac, zone);
  }

  /** The day written is the day meant exactly when the month has it; later ones run on. */
  lemma DayWrittenIsDayMeant(y: int, m: int, d: int)
    requires 1 <= m <= 12 && 1 <= d <= 31
    ensures CivilFromDays(DaysFromCivil(y, m, d)) == Date(y, m, d) <==> ValidDate(Date(y, m, d))
  {
    hide CivilFromDays, DaysFromCivil;
    DaysOfDate(DaysFromCivil(y, m, d));
    if ValidDate(Date(y, m, d)) {
      DateOfDays(Date(y, m, d));
    }
  }

  // Which texts come back.

  /** The month has the day, and the second is one of the minute's. */
  predicate Exact(y: string, mo: string, d: string, sec: string)
  {
    && AllDigits(y) && AllDigits(mo) && AllDigits(d) && AllDigits(sec)
    && ValidDate(Date(NumberOf(y), NumberOf(mo), NumberOf(d))) && NumberOf(sec) <= 59
  }

  lemma {:induction false} PadOfNumber(s: string)
    requires AllDigits(s) && s != ""
    ensures Pad(NumberOf(s), |s|) == s
  {
    var n := |s| - 1;
    if n == 0 {
      assert s[..0] == "" && s == [s[0]];
    } else {
      PadOfNumber(s[..n]);
      assert NumberOf(s) / 10 == NumberOf(s[..n]) && NumberOf(s) % 10 == s[n] as int - '0' as int;
      assert s == s[..n] + [s[n]];
    }
  }

  /** The seconds of a day split into hours, minutes and seconds again. */
  lemma ClockSplits(days: int, h: nat, mi: nat, sec: nat)
    requires h <= 23 && mi <= 59 && sec <= 59
    ensures var unix := days * DAY + h * 3600 + mi * 60 + sec;
            && unix / DAY == days && unix % DAY == h * 3600 + mi * 60 + sec
            && unix % DAY / 3600 == h && unix % DAY / 60 % 60 == mi && unix % DAY % 60 == sec
  {
    var s := h * 3600 + mi * 60 + sec;
    assert s / 60 == h * 60 + mi && s % 60 == sec;
  }

  lemma ExactIsWrittenBack(y: string, mo: string, d: string, h: string, mi: string, sec: string)
    requires Accepted(y, mo, d, h, mi, sec) && Exact(y, mo, d, sec)
    ensures ParsedTs(Written(y, mo, d, h, mi, sec)).Some?
    ensures FormatTs(ParsedTs(Written(y, mo, d, h, mi, sec)).value) == Written(y, mo, d, h, mi, sec)
  {
    hide NumberOf, DaysFromCivil, CivilFromDays, Pad, Written, ParsedTs, ValidDate, AllDigits;
    WrittenReads(y, mo, d, h, mi, sec);
    var date := Date(NumberOf(y), NumberOf(mo), NumberOf(d));
    ClockSplits(Days(date), NumberOf(h), NumberOf(mi), NumberOf(sec));
    DateOfDays(date);
    SignOf(NumberOf(y));
    PadOfNumber(y);
    PadOfNumber(mo);
    PadOfNumber(d);
    PadOfNumber(h);
    PadOfNumber(mi);
    PadOfNumber(sec);
  }

  /** Two texts of the same fields' lengths agree field by field. */
  lemma SameFields(y: string, mo: string, d: string, h: string, mi: string, sec: string,
                   y2: string, mo2: string, d2: string, h2: string, mi2: string, sec2: string)
    requires |y| == |y2| == 4 && |mo| == |d| == |h| == |mi| == |sec| == 2
    requires |mo2| == |d2| == |h2| == |mi2| == |sec2| == 2
    requires Written(y, mo, d, h, mi, sec) == Written(y2, mo2, d2, h2, mi2, sec2)
    ensures y == y2 && mo == mo2 && d == d2 && h == h2 && mi == mi2 && sec == sec2
  {
    hide Written;
    WrittenFields(y, mo, d, h, mi, sec);
    WrittenFields(y2, mo2, d2, h2, mi2, sec2);
  }

  lemma WrittenLength(y: string, mo: string, d: string, h: string, mi: string, sec: string)
    ensures |Written(y, mo, d, h, mi, sec)| == |y| + |mo| + |d| + |h| + |mi| + |sec| + 6
  {
  }

  /** What is written is exact: a real date and a second of its minute. */
  lemma WrittenIsExact(unix: int, y: string, mo: string, d: string, h: string, mi: string, sec: string)
    requires Accepted(y, mo, d, h, mi, sec) && FormatTs(unix) == Written(y, mo, d, h, mi, sec)
    ensures Exact(y, mo, d, sec)
  {
    hide NumberOf, DaysFromCivil, CivilFromDays, Pad, Written, PadSigned, ValidDate;
    var date, s := CivilFromDays(unix / DAY), unix % DAY;
    DaysOfDate(unix / DAY);
    DateOfDaysIsCounted(unix / DAY);
    TimeOfDay(s);
    var year := PadSigned(date.y, 4);
    var mo2, d2, h2, mi2, sec2 := Pad(date.m, 2), Pad(date.d, 2), Pad(s / 3600, 2), Pad(s / 60 % 60, 2), Pad(s % 60, 2);
    Pad2(date.m);
    Pad2(date.d);
    Pad2(s / 3600);
    Pad2(s / 60 % 60);
    Pad2(s % 60);
    WrittenLength(y, mo, d, h, mi, sec);
    WrittenLength(year, mo2, d2, h2, mi2, sec2);
    SameFields(y, mo, d, h, mi, sec, year, mo2, d2, h2, mi2, sec2);
    YearWritten(date.y, y);
  }

  lemma YearWritten(y: int, text: string)
    requires PadSigned(y, 4) == text && AllDigits(text)
    ensures y >= 0 && NumberOf(text) == y
  {
    assert y < 0 ==> text != "" && !IsDigit(text[0]);
    if y >= 0 {
      Pad4(y);
    }
  }

  /** Of the texts in the form that is written, those come back whose month has their day and whose second is not 60. */
  lemma FieldsWrittenBack(y: string, mo: string, d: string, h: string, mi: string, sec: string)
    requires Accepted(y, mo, d, h, mi, sec)
    ensures ParsedTs(Written(y, mo, d, h, mi, sec)).Some?
    ensures FormatTs(ParsedTs(Written(y, mo, d, h, mi, sec)).value) == Written(y, mo, d, h, mi, sec)
            <==> Exact(y, mo, d, sec)
  {
    hide ParsedTs, Written, FormatTs, Exact;
    WrittenReads(y, mo, d, h, mi, sec);
    if Exact(y, mo, d, sec) {
      ExactIsWrittenBack(y, mo, d, h, mi, sec);
    }
    var unix := ParsedTs(Written(y, mo, d, h, mi, sec)).value;
    if FormatTs(unix) == Written(y, mo, d, h, mi, sec) {
      WrittenIsExact(unix, y, mo, d, h, mi, sec);
    }
  }

  /** The form in which times are written. */
  predicate InWrittenForm(s: string) {
    |s| == 20 && s[10] == 'T' && s[19] == 'Z'
  }

  lemma FormIsWritten(s: string)
    requires ParsedTs(s).Some? && InWrittenForm(s)
    ensures Accepted(s[0..4], s[5..7], s[8..10], s[11..13], s[14..16], s[17..19])
    ensures s == Written(s[0..4], s[5..7], s[8..10], s[11..13], s[14..16], s[17..19])
  {
    InstantIsDateAndTime(s);
    var core := s[..19];
    hide ParsedTs, Accepted, Instant;
    assert core[0..4] == s[0..4] && core[5..7] == s[5..7] && core[8..10] == s[8..10];
    assert core[11..13] == s[11..13] && core[14..16] == s[14..16] && core[17..19] == s[17..19];
    FormSplits(s);
  }

  lemma FormSplits(s: string)
    requires InWrittenForm(s) && s[4] == '-' && s[7] == '-' && s[13] == ':' && s[16] == ':'
    ensures s == Written(s[0..4], s[5..7], s[8..10], s[11..13], s[14..16], s[17..19])
  {
    assert s[0..10] == DatePart(s[0..4], s[5..7], s[8..10]);
    assert s[11..19] == TimePart(s[11..13], s[14..16], s[17..19]);
    hide DatePart, TimePart;
    assert s == s[0..10] + ("T" + (s[11..19] + "Z"));
  }

  /** What is written and accepted is in this form. */
  lemma WrittenInForm(unix: int)
    requires ParsedTs(FormatTs(unix)).Some?
    ensures InWrittenForm(FormatTs(unix))
  {
    hide CivilFromDays, Pad, Written, ParsedTs, PadSigned;
    FormatReadsBack(unix);
    var date, s := CivilFromDays(unix / DAY), unix % DAY;
    DateOfDaysIsCounted(unix / DAY);
    TimeOfDay(s);
    SignOf(date.y);
    Pad4(date.y);
    Pad2(date.m);
    Pad2(date.d);
    Pad2(s / 3600);
    Pad2(s / 60 % 60);
    Pad2(s % 60);
    WrittenFields(Pad(date.y, 4), Pad(date.m, 2), Pad(date.d, 2),
                  Pad(s / 3600, 2), Pad(s / 60 % 60, 2), Pad(s % 60, 2));
  }

  /**
   A text that was read is written back from its time as it was exactly when it has a `T`, a
   `Z` and no fraction, its month has its day, and its second is not 60.
   */
  lemma WrittenBackExactly(s: string)
    requires ParsedTs(s).Some?
    ensures FormatTs(ParsedTs(s).value) == s <==> InWrittenForm(s) && Exact(s[0..4], s[5..7], s[8..10], s[17..19])
  {
    hide ParsedTs, Written, FormatTs, Exact, InWrittenForm, Accepted;
    if FormatTs(ParsedTs(s).value) == s {
      WrittenInForm(ParsedTs(s).value);
    }
    if InWrittenForm(s) {
      assert |s| == 20 by { FormIsLong(s); }
      FormIsWritten(s);
      FieldsWrittenBack(s[0..4], s[5..7], s[8..10], s[11..13], s[14..16], s[17..19]);
    }
  }

  lemma FormIsLong(s: string)
    requires InWrittenForm(s)
    ensures |s| == 20
  {
  }

  /** So a time of a four-digit year has one text that is written back as it was, and every other text of the time
      is written back as that one. */
  lemma OneTextIsWrittenBack(s: string)
    requires ParsedTs(s).Some? && 0 <= CivilFromDays(ParsedTs(s).value / DAY).y <= 9999
    ensures var text := FormatTs(ParsedTs(s).value);
            && ParsedTs(text) == ParsedTs(s)
            && forall other | ParsedTs(other) == ParsedTs(s) ::
                 (other == text <==>
                    InWrittenForm(other) && Exact(other[0..4], other[5..7], other[8..10], other[17..19]))
  {
    hide ParsedTs, FormatTs, Exact, CivilFromDays;
    FormatReadsBack(ParsedTs(s).value);
    forall other | ParsedTs(other) == ParsedTs(s)
      ensures other == FormatTs(ParsedTs(s).value) <==>
              InWrittenForm(other) && Exact(other[0..4], other[5..7], other[8..10], other[17..19])
    {
      WrittenBackExactly(other);
    }
  }

  /** With a small `t` or a space for the `T`, or a small `z` or an offset of nothing for the `Z`, the
      time is the same, and the text is not written back as it was. */
  lemma OtherFormsAreAccepted(s: string, c: char, zone: string)
    requires |s| == 20 && InWrittenForm(s) && ParsedTs(s).Some?
    requires c == 'T' || c == 't' || c == ' '
    requires zone == "Z" || zone == "z" || zone == "+00:00" || zone == "-00:00"
    ensures var text := s[..10] + [c] + s[11..19] + zone;
            && ParsedTs(text) == ParsedTs(s)
            && (c != 'T' || zone != "Z" ==> FormatTs(ParsedTs(text).value) != text)
  {
    hide Zone, ZoneMinutes, FormatTs, ParsedTs, InWrittenForm, Exact;
    var core := s[..10] + [c] + s[11..19];
    CoreReads(s, c);
    FormsTellParts(core, c, zone);
    ZonesOfNothing(zone);
    OffsetIsTakenOff(core, "", zone);
    assert "" + zone == zone;
    WrittenBackExactly(core + zone);
  }

  lemma CoreReads(s: string, c: char)
    requires InWrittenForm(s) && (c == 'T' || c == 't' || c == ' ')
    ensures var core := s[..10] + [c] + s[11..19];
            |core| == 19 && core[10] == c && ParsedTs(core + "Z") == ParsedTs(s)
  {
    var core := s[..10] + [c] + s[11..19];
    SeparatorsAreAlike(s, core + "Z");
    hide ParsedTs;
  }

  lemma FormsTellParts(core: string, c: char, zone: string)
    requires |core| == 19 && core[10] == c && zone != ""
    ensures InWrittenForm(core + zone) ==> c == 'T' && zone == "Z"
  {
    assert (core + zone)[10] == c && (core + zone)[19] == zone[0];
    assert |zone| == 1 ==> zone == [zone[0]];
  }

  lemma ZonesOfNothing(zone: string)
    requires zone == "Z" || zone == "z" || zone == "+00:00" || zone == "-00:00"
    ensures Zone(zone) && ZoneMinutes(zone) == 0 && Fraction("")
  {
    if |zone| == 6 {
      assert zone[1..3] == "00" && zone[4..6] == "00";
      Digits2('0', '0');
    }
  }

  lemma SeparatorsAreAlike(s: string, other: string)
    requires |s| == |other| == 20 && s[10] == 'T' && (other[10] == 'T' || other[10] == 't' || other[10] == ' ')
    requires forall i | 0 <= i < 20 && i != 10 :: s[i] == other[i]
    ensures ParsedTs(other) == ParsedTs(s)
  {
    hide NumberOf, DaysFromCivil;
    assert s[0..4] == other[0..4] && s[5..7] == other[5..7] && s[8..10] == other[8..10];
    assert s[11..13] == other[11..13] && s[14..16] == other[14..16] && s[17..19] == other[17..19];
    assert s[20..] == other[20..];
  }

  /** Second 60 reads as one after second 59: as second 0 of the next minute, if the hour has one. */
  lemma SixtyIsTheNextMinute(y: string, mo: string, d: string, h: string, mi: string)
    requires Accepted(y, mo, d, h, mi, "60")
    ensures !Exact(y, mo, d, "60")
    ensures ParsedTs(Written(y, mo, d, h, mi, "60")).Some? && ParsedTs(Written(y, mo, d, h, mi, "59")).Some?
    ensures ParsedTs(Written(y, mo, d, h, mi, "60")).value == ParsedTs(Written(y, mo, d, h, mi, "59")).value + 1
    ensures NumberOf(mi) < 59 ==>
              ParsedTs(Written(y, mo, d, h, mi, "60")) == ParsedTs(Written(y, mo, d, h, Pad(NumberOf(mi) + 1, 2), "00"))
  {
    hide ParsedTs, Written, Pad, DaysFromCivil, NumberOf;
    Digits2('6', '0');
    Digits2('5', '9');
    Digits2('0', '0');
    WrittenReads(y, mo, d, h, mi, "60");
    WrittenReads(y, mo, d, h, mi, "59");
    if NumberOf(mi) < 59 {
      Pad2(NumberOf(mi) + 1);
      WrittenReads(y, mo, d, h, Pad(NumberOf(mi) + 1, 2), "00");
    }
  }

  /** So reading is not injective: February 31 reads as March 3, in a year of 365 days. */
  lemma TwoTextsOneTime(y: string, h: string, mi: string, sec: string)
    requires |y| == 4 && |h| == |mi| == |sec| == 2
    requires AllDigits(y) && AllDigits(h) && AllDigits(mi) && AllDigits(sec)
    requires NumberOf(h) <= 23 && NumberOf(mi) <= 59 && NumberOf(sec) <= 60 && !Leap(NumberOf(y))
    ensures ParsedTs(Written(y, "02", "31", h, mi, sec)).Some?
    ensures ParsedTs(Written(y, "02", "31", h, mi, sec)) == ParsedTs(Written(y, "03", "03", h, mi, sec))
  {
    hide NumberOf, DaysFromCivil, Written, ParsedTs, Leap;
    assert AllDigits("02") && NumberOf("02") == 2 by {
      Digits2('0', '2');
    }
    assert AllDigits("03") && NumberOf("03") == 3 by {
      Digits2('0', '3');
    }
    assert AllDigits("31") && NumberOf("31") == 31 by {
      Digits2('3', '1');
    }
    WrittenReads(y, "02", "31", h, mi, sec);
    WrittenReads(y, "03", "03", h, mi, sec);
    MarchThird(NumberOf(y));
  }

  lemma MarchThird(y: int)
    requires !Leap(y)
    ensures DaysFromCivil(y, 2, 31) == DaysFromCivil(y, 3, 3)
  {
    hide DaysFromCivil, Leap;
    DaysRunOn(y, 2, 31);
    DaysRunOn(y, 2, 28);
    DaysRunOn(y, 3, 3);
    NextDayIsNext(Date(y, 2, 28));
  }

  lemma Digits2(a: char, b: char)
    requires IsDigit(a) && IsDigit(b)
    ensures AllDigits([a, b])
    ensures NumberOf([a, b]) == 10 * (a as int - '0' as int) + (b as int - '0' as int)
  {
    assert [a, b][..1] == [a] && [a][..0] == [];
    assert NumberOf([a]) == a as int - '0' as int;
  }
}
