/** UTC timestamps: the printer and the cursor parser (crates/model/src/time.rs). */
module Timestamps {
  import opened Wrappers
  import opened ByteCodec
  import opened Digits
  import opened Calendar
  import Utf8

  /** Seconds and nanoseconds since 1 January 1970. */
  datatype Timestamp = Timestamp(secs: int, nanos: nat)

  /** An interval, open-ended without `to`. */
  datatype Interval = Interval(from: Timestamp, to: Option<Timestamp>)

  const DAY := 86_400

  // ----- printing

  /** `{:04}` of a signed year: the sign counts towards the width. */
  function YearText(y: int): string {
    if y >= 0 then Padded(y, 4) else "-" + Padded(-y, 3)
  }

  function TrimEndZeros(s: string): (t: string)
    ensures t <= s
  {
    if s != "" && s[|s| - 1] == '0' then TrimEndZeros(s[..|s| - 1]) else s
  }

  function FractionText(nanos: nat): string {
    if nanos > 0 then "." + TrimEndZeros(Padded(nanos, 9)) else ""
  }

  function DateText(date: Date): string
    requires date.month >= 0 && date.day >= 0
  {
    YearText(date.year) + "-" + Padded(date.month, 2) + "-" + Padded(date.day, 2)
  }

  function ClockText(rem: nat): string {
    Padded(rem / 3_600, 2) + ":" + Padded(rem % 3_600 / 60, 2) + ":" + Padded(rem % 60, 2)
  }

  function DateOf(t: Timestamp): (date: Date)
    ensures date.Valid()
  {
    DaysOfCivil(t.secs / DAY);
    CivilFromDays(t.secs / DAY)
  }

  /** `to_string()`; the divisions of negative seconds are Euclidean in the source as well. */
  function Print(t: Timestamp): string {
    DateText(DateOf(t)) + "T" + ClockText(t.secs % DAY) + FractionText(t.nanos) + "Z"
  }

  // ----- parsing

  predicate IsDigitByte(b: byte) { 48 <= b <= 57 }

  /** The number that a run of ASCII digits denotes. */
  function NumberIn(b: bytes): Option<nat> {
    if b == [] then Some(0)
    else
      match NumberIn(b[..|b| - 1])
      case None => None
      case Some(v) => if IsDigitByte(b[|b| - 1]) then Some(10 * v + b[|b| - 1] - 48) else None
  }

  function NumberAt(b: bytes, pos: nat, len: nat): Option<nat> {
    if pos + len > |b| then None else NumberIn(b[pos..pos + len])
  }

  /** `digits`: the loop. */
  method DigitsAt(b: bytes, pos: nat, len: nat) returns (r: Option<nat>)
    ensures r == NumberAt(b, pos, len)
  {
    if pos + len > |b| {
      return None;
    }
    var v: nat := 0;
    ghost var s := b[pos..pos + len];
    for i := 0 to len
      invariant NumberIn(s[..i]) == Some(v)
    {
      assert s[..i + 1][..i] == s[..i];
      var c := b[pos + i];
      if !IsDigitByte(c) {
        NotANumber(s, i);
        return None;
      }
      v := v * 10 + (c - 48);
    }
    assert s[..len] == s;
    return Some(v);
  }

  lemma {:induction false} NotANumber(s: bytes, i: nat)
    requires i < |s| && !IsDigitByte(s[i])
    ensures NumberIn(s).None?
  {
    if i < |s| - 1 {
      NotANumber(s[..|s| - 1], i);
    }
  }

  /** Length of the run of digits at the start. */
  function DigitRun(b: bytes): (n: nat)
    ensures n <= |b|
  {
    if b != [] && IsDigitByte(b[0]) then 1 + DigitRun(b[1..]) else 0
  }

  function DateIn(b: bytes): Result<Date, string> {
    if |b| < 10 then Err("expected at least YYYY-MM-DD") else
      match NumberAt(b, 0, 4)
      case None => Err("bad year")
      case Some(year) =>
        if b[4] != 45 then Err("expected '-' after year") else
          match NumberAt(b, 5, 2)
          case None => Err("bad month")
          case Some(month) =>
            if b[7] != 45 then Err("expected '-' after month") else
              match NumberAt(b, 8, 2)
              case None => Err("bad day")
              case Some(day) =>
                if !(1 <= month <= 12) then Err("month out of range")
                else if day < 1 || day > DaysInMonth(year, month) then Err("day out of range")
                else Ok(Date(year, month, day))
  }

  /** Seconds of the day, nanoseconds, and where the cursor stands behind them. */
  datatype Clock = Clock(seconds: nat, nanos: nat, pos: nat)

  /** A fraction of one to nine digits behind a point at `pos`; none if there is no point. */
  function FractionIn(b: bytes, pos: nat): Result<(nat, nat), string>
    requires pos <= |b|
  {
    if !(|b| > pos && b[pos] == 46) then Ok((0, pos)) else
      var len := DigitRun(b[pos + 1..]);
      if len == 0 || len > 9 then Err("bad fractional seconds") else
        match NumberIn(b[pos + 1..pos + 1 + len])
        case Some(v) => Ok((v * Pow10(9 - len), pos + 1 + len))
        case None => Err("bad fractional seconds")
  }

  function ClockIn(b: bytes): (r: Result<Clock, string>)
    requires |b| >= 10
    ensures r.Ok? ==> 10 <= r.value.pos <= |b|
  {
    if !(|b| > 10 && (b[10] == 84 || b[10] == 116 || b[10] == 32)) then Ok(Clock(0, 0, 10))
    else if |b| < 19 then Err("expected hh:mm:ss")
    else
      match NumberAt(b, 11, 2)
      case None => Err("bad hour")
      case Some(hour) =>
        if b[13] != 58 then Err("expected ':' after hour") else
          match NumberAt(b, 14, 2)
          case None => Err("bad minute")
          case Some(min) =>
            if b[16] != 58 then Err("expected ':' after minute") else
              match NumberAt(b, 17, 2)
              case None => Err("bad second")
              case Some(sec) =>
                if hour > 23 || min > 59 || sec > 59 then Err("time component out of range") else
                  match FractionIn(b, 19)
                  case Err(e) => Err(e)
                  case Ok((nanos, pos)) => Ok(Clock(hour * 3_600 + min * 60 + sec, nanos, pos))
  }

  /** The zone behind `pos`: Z, a numeric offset with or without a colon, or nothing, read as UTC. */
  function OffsetIn(b: bytes, pos: nat): Result<int, string>
    requires pos <= |b|
  {
    if pos == |b| then Ok(0)
    else if b[pos] == 90 || b[pos] == 122 then
      if pos + 1 == |b| then Ok(0) else Err("trailing garbage after zone")
    else if b[pos] == 43 || b[pos] == 45 then
      match NumberAt(b, pos + 1, 2)
      case None => Err("bad offset hour")
      case Some(oh) =>
        var at := if pos + 3 < |b| && b[pos + 3] == 58 then pos + 4 else pos + 3;
        match NumberAt(b, at, 2)
        case None => Err("bad offset minute")
        case Some(om) =>
          if oh > 23 || om > 59 then Err("offset out of range")
          else if at + 2 != |b| then Err("trailing garbage after zone")
          else Ok((if b[pos] == 45 then -1 else 1) * (oh * 3_600 + om * 60))
    else Err("trailing garbage")
  }

  function ParseBytes(b: bytes): Result<Timestamp, string> {
    match DateIn(b)
    case Err(e) => Err(e)
    case Ok(date) =>
      match ClockIn(b)
      case Err(e) => Err(e)
      case Ok(clock) =>
        match OffsetIn(b, clock.pos)
        case Err(e) => Err(e)
        case Ok(offset) => Ok(Timestamp(DaysFromCivil(date) * DAY + clock.seconds - offset, clock.nanos))
  }

  function Parse(input: string): Result<Timestamp, string> {
    ParseBytes(Utf8.Encode(input))
  }

  /** The cursor parser. */
  method ParseTimestamp(input: string) returns (r: Result<Timestamp, string>)
    ensures r == Parse(input)
  {
    hide DaysFromCivil, NumberIn, DigitRun, Utf8.Encode;
    var b := Utf8.Encode(input);
    if |b| < 10 {
      return Err("expected at least YYYY-MM-DD");
    }
    var year := DigitsAt(b, 0, 4);
    if year.None? { return Err("bad year"); }
    if b[4] != 45 { return Err("expected '-' after year"); }
    var month := DigitsAt(b, 5, 2);
    if month.None? { return Err("bad month"); }
    if b[7] != 45 { return Err("expected '-' after month"); }
    var day := DigitsAt(b, 8, 2);
    if day.None? { return Err("bad day"); }
    if !(1 <= month.value <= 12) { return Err("month out of range"); }
    if day.value < 1 || day.value > DaysInMonth(year.value, month.value) { return Err("day out of range"); }
    var date := Date(year.value, month.value, day.value);
    assert DateIn(b) == Ok(date);
    var clock := ParseClock(b);
    if clock.Err? { return Err(clock.error); }
    var offset := ParseOffset(b, clock.value.pos);
    if offset.Err? { return Err(offset.error); }
    return Ok(Timestamp(DaysFromCivil(date) * DAY + clock.value.seconds - offset.value, clock.value.nanos));
  }

  method ParseClock(b: bytes) returns (r: Result<Clock, string>)
    requires |b| >= 10
    ensures r == ClockIn(b)
  {
    hide NumberIn, FractionIn;
    var pos := 10;
    if !(|b| > pos && (b[pos] == 84 || b[pos] == 116 || b[pos] == 32)) {
      return Ok(Clock(0, 0, pos));
    }
    if |b| < pos + 9 { return Err("expected hh:mm:ss"); }
    var hour := DigitsAt(b, pos + 1, 2);
    if hour.None? { return Err("bad hour"); }
    if b[pos + 3] != 58 { return Err("expected ':' after hour"); }
    var min := DigitsAt(b, pos + 4, 2);
    if min.None? { return Err("bad minute"); }
    if b[pos + 6] != 58 { return Err("expected ':' after minute"); }
    var sec := DigitsAt(b, pos + 7, 2);
    if sec.None? { return Err("bad second"); }
    if hour.value > 23 || min.value > 59 || sec.value > 59 { return Err("time component out of range"); }
    pos := pos + 9;
    var fraction := ParseFraction(b, pos);
    if fraction.Err? { return Err(fraction.error); }
    return Ok(Clock(hour.value * 3_600 + min.value * 60 + sec.value, fraction.value.0, fraction.value.1));
  }

  method ParseFraction(b: bytes, start: nat) returns (r: Result<(nat, nat), string>)
    requires start <= |b|
    ensures r == FractionIn(b, start)
  {
    hide NumberIn, Pow10;
    var pos := start;
    var nanos: nat := 0;
    if |b| > pos && b[pos] == 46 {
      pos := pos + 1;
      while pos < |b| && IsDigitByte(b[pos])
        invariant start + 1 <= pos <= |b|
        invariant DigitRun(b[start + 1..]) == pos - start - 1 + DigitRun(b[pos..])
      {
        assert b[pos..][1..] == b[pos + 1..];
        pos := pos + 1;
      }
      var fracLen := pos - start - 1;
      if fracLen == 0 || fracLen > 9 { return Err("bad fractional seconds"); }
      var val := DigitsAt(b, start + 1, fracLen);
      if val.None? { return Err("bad fractional seconds"); }
      nanos := val.value * Pow10(9 - fracLen);
    }
    return Ok((nanos, pos));
  }

  method ParseOffset(b: bytes, start: nat) returns (r: Result<int, string>)
    requires start <= |b|
    ensures r == OffsetIn(b, start)
  {
    var pos, offset := start, 0;
    if pos < |b| {
      if b[pos] == 90 || b[pos] == 122 {
        pos := pos + 1;
      } else if b[pos] == 43 || b[pos] == 45 {
        var sign: int := if b[pos] == 45 then -1 else 1;
        pos := pos + 1;
        var oh := DigitsAt(b, pos, 2);
        if oh.None? { return Err("bad offset hour"); }
        pos := pos + 2;
        if pos < |b| && b[pos] == 58 {
          pos := pos + 1;
        }
        var om := DigitsAt(b, pos, 2);
        if om.None? { return Err("bad offset minute"); }
        pos := pos + 2;
        if oh.value > 23 || om.value > 59 { return Err("offset out of range"); }
        offset := sign * (oh.value * 3_600 + om.value * 60);
      } else {
        return Err("trailing garbage");
      }
      if pos != |b| { return Err("trailing garbage after zone"); }
    }
    return Ok(offset);
  }

  // ----- the round trip

  /** b holds the codes of the ASCII text s. */
  ghost predicate Codes(b: bytes, s: string) {
    |b| == |s| && forall i :: 0 <= i < |s| ==> b[i] == s[i] as int
  }

  lemma {:induction false} NumberInDigits(b: bytes, s: string)
    requires Codes(b, s) && AllDigits(s)
    ensures NumberIn(b) == Some(NumberOf(s))
  {
    if s != "" {
      NumberInDigits(b[..|b| - 1], s[..|s| - 1]);
      assert IsDigit(s[|s| - 1]);
    }
  }

  lemma {:induction false} NumberAtDigits(b: bytes, s: string, pos: nat, part: string)
    requires Codes(b, s) && pos + |part| <= |s| && s[pos..pos + |part|] == part && AllDigits(part)
    ensures NumberAt(b, pos, |part|) == Some(NumberOf(part))
  {
    NumberInDigits(b[pos..pos + |part|], part);
  }

  lemma {:induction false} RunOfDigits(b: bytes, n: nat)
    requires n <= |b| && forall i :: 0 <= i < n ==> IsDigitByte(b[i])
    requires n < |b| ==> !IsDigitByte(b[n])
    ensures DigitRun(b) == n
  {
    if n > 0 {
      RunOfDigits(b[1..], n - 1);
    }
  }

  lemma {:induction false} TrimmedRestores(s: string)
    ensures s == TrimEndZeros(s) + Zeros(|s| - |TrimEndZeros(s)|)
  {
    if s != "" && s[|s| - 1] == '0' {
      TrimmedRestores(s[..|s| - 1]);
      var k := |s| - |TrimEndZeros(s)|;
      assert s == s[..|s| - 1] + "0";
      assert Zeros(k) == Zeros(k - 1) + "0";
    }
  }

  /** The trimmed fraction denotes the nanoseconds again once it is scaled back to nine digits. */
  lemma {:induction false} TrimmedFraction(nanos: nat)
    requires 0 < nanos < 1_000_000_000
    ensures var f := TrimEndZeros(Padded(nanos, 9));
      1 <= |f| <= 9 && AllDigits(f) && NumberOf(f) * Pow10(9 - |f|) == nanos
  {
    NineDigits();
    PaddedIsExact(nanos, 9);
    var s := Padded(nanos, 9);
    var f := TrimEndZeros(s);
    TrimmedRestores(s);
    TrailingZeros(f, 9 - |f|);
  }

  lemma {:induction false} NineDigits()
    ensures Pow10(2) == 100 && Pow10(4) == 10_000 && Pow10(9) == 1_000_000_000
  {
    assert Pow10(1) == 10 * Pow10(0) && Pow10(3) == 10 * Pow10(2) && Pow10(5) == 10 * Pow10(4);
    assert Pow10(6) == 10 * Pow10(5) && Pow10(7) == 10 * Pow10(6) && Pow10(8) == 10 * Pow10(7);
  }

  lemma {:induction false} ReadDate(b: bytes, s: string, date: Date, y: string, m: string, d: string)
    requires Codes(b, s) && date.Valid() && |s| >= 10
    requires |y| == 4 && |m| == 2 && |d| == 2 && AllDigits(y) && AllDigits(m) && AllDigits(d)
    requires s[..10] == y + "-" + m + "-" + d
    requires NumberOf(y) == date.year && NumberOf(m) == date.month && NumberOf(d) == date.day
    ensures DateIn(b) == Ok(date)
  {
    hide NumberOf, NumberAt, DaysInMonth;
    var x := y + "-" + m + "-" + d;
    assert s[0..4] == s[..10][0..4] == x[0..4] == y && s[4] == x[4] == '-';
    assert s[5..7] == s[..10][5..7] == x[5..7] == m && s[7] == x[7] == '-';
    assert s[8..10] == s[..10][8..10] == x[8..10] == d;
    NumberAtDigits(b, s, 0, y);
    NumberAtDigits(b, s, 5, m);
    NumberAtDigits(b, s, 8, d);
  }

  lemma {:induction false} ClockParts(s: string, h: string, m: string, c: string)
    requires |s| >= 19 && |h| == 2 && |m| == 2 && |c| == 2 && s[11..19] == h + ":" + m + ":" + c
    ensures s[11..13] == h && s[13] == ':' && s[14..16] == m && s[16] == ':' && s[17..19] == c
  {
    var x := s[11..19];
    assert x[0] == h[0] && x[1] == h[1] && x[2] == ':' && x[3] == m[0] && x[4] == m[1] && x[5] == ':';
    assert x[6] == c[0] && x[7] == c[1];
    assert s[11] == x[0] && s[12] == x[1] && s[13] == x[2] && s[14] == x[3] && s[15] == x[4] && s[16] == x[5];
    assert s[17] == x[6] && s[18] == x[7];
  }

  lemma {:induction false} TwoDigits(n: nat)
    requires n < 100
    ensures |Padded(n, 2)| == 2 && NumberOf(Padded(n, 2)) == n
  {
    NineDigits();
    PaddedIsExact(n, 2);
  }

  lemma {:induction false} DigitsAreAscii(s: string)
    requires AllDigits(s)
    ensures Utf8.IsAscii(s)
  {
    assert forall i :: 0 <= i < |s| ==> IsDigit(s[i]);
  }

  lemma {:induction false} FractionIsAscii(nanos: nat)
    ensures Utf8.IsAscii(FractionText(nanos))
  {
    hide Padded, TrimEndZeros;
    DigitsAreAscii(Padded(nanos, 9));
    var f := TrimEndZeros(Padded(nanos, 9));
    assert forall i :: 0 <= i < |f| ==> f[i] == Padded(nanos, 9)[i];
  }

  lemma {:induction false} DateIsAscii(date: Date)
    requires date.month >= 0 && date.day >= 0
    ensures Utf8.IsAscii(DateText(date))
  {
    hide Padded;
    DigitsAreAscii(Padded(date.month, 2));
    DigitsAreAscii(Padded(date.day, 2));
    if date.year >= 0 {
      DigitsAreAscii(Padded(date.year, 4));
    } else {
      DigitsAreAscii(Padded(-date.year, 3));
    }
  }

  lemma {:induction false} ClockIsAscii(rem: nat)
    ensures Utf8.IsAscii(ClockText(rem))
  {
    hide Padded;
    DigitsAreAscii(Padded(rem / 3_600, 2));
    DigitsAreAscii(Padded(rem % 3_600 / 60, 2));
    DigitsAreAscii(Padded(rem % 60, 2));
  }

  lemma {:induction false} PrintedIsAscii(t: Timestamp)
    ensures Utf8.IsAscii(Print(t))
  {
    hide DateText, ClockText, FractionText, DateOf;
    DateIsAscii(DateOf(t));
    ClockIsAscii(t.secs % DAY);
    FractionIsAscii(t.nanos);
  }

  /** Of the years 0 to 9999. */
  predicate Printable(t: Timestamp) {
    0 <= DateOf(t).year <= 9_999 && t.nanos < 1_000_000_000
  }

  // ----- the grammar

  /** Z, a numeric offset east or west of UTC with or without a colon, or nothing. */
  datatype Zone = NoZone | Zulu(mark: char) | Offset(west: bool, hours: nat, minutes: nat, colon: bool)

  /** The mark in front, the second of the day, and the digits of the fraction. */
  datatype TimeOfDay = TimeOfDay(mark: char, second: nat, fraction: string)

  datatype Written = Written(date: Date, time: Option<TimeOfDay>, zone: Zone)

  predicate WellZoned(z: Zone) {
    match z
    case NoZone => true
    case Zulu(mark) => mark == 'Z' || mark == 'z'
    case Offset(_, hours, minutes, _) => hours <= 23 && minutes <= 59
  }

  predicate WellTimed(time: TimeOfDay) {
    && (time.mark == 'T' || time.mark == 't' || time.mark == ' ') && time.second < DAY
    && |time.fraction| <= 9 && AllDigits(time.fraction)
  }

  predicate WellWritten(w: Written) {
    w.date.Valid() && 0 <= w.date.year <= 9_999 && (w.time.Some? ==> WellTimed(w.time.value)) && WellZoned(w.zone)
  }

  function ZoneText(z: Zone): string {
    match z
    case NoZone => ""
    case Zulu(mark) => [mark]
    case Offset(west, hours, minutes, colon) =>
      (if west then "-" else "+") + Padded(hours, 2) + (if colon then ":" else "") + Padded(minutes, 2)
  }

  function TimeText(time: TimeOfDay): string {
    [time.mark] + ClockText(time.second) + (if time.fraction == "" then "" else "." + time.fraction)
  }

  function WrittenText(w: Written): string
    requires w.date.Valid()
  {
    DateText(w.date) + (if w.time.Some? then TimeText(w.time.value) else "") + ZoneText(w.zone)
  }

  /** How far local time is ahead of UTC. */
  function Ahead(z: Zone): int {
    match z
    case NoZone => 0
    case Zulu(_) => 0
    case Offset(west, hours, minutes, _) => if west then -(hours * 3_600 + minutes * 60) else hours * 3_600 + minutes * 60
  }

  function Nanoseconds(fraction: string): nat
    requires AllDigits(fraction) && |fraction| <= 9
  {
    NumberOf(fraction) * Pow10(9 - |fraction|)
  }

  /** The time in UTC that is written. */
  function WrittenTime(w: Written): Timestamp
    requires WellWritten(w)
  {
    var local := DaysFromCivil(w.date) * DAY + if w.time.Some? then w.time.value.second else 0;
    Timestamp(local - Ahead(w.zone), if w.time.Some? then Nanoseconds(w.time.value.fraction) else 0)
  }

  /** Neither a digit nor a point nor a mark of a time comes first. */
  predicate EndsTime(z: string) {
    z == "" || (!IsDigit(z[0]) && z[0] != '.' && z[0] != 'T' && z[0] != 't' && z[0] != ' ')
  }

  lemma {:induction false} ZoneEndsTime(z: Zone)
    requires WellZoned(z)
    ensures EndsTime(ZoneText(z))
  {
    hide Padded;
  }

  lemma {:induction false} DateLength(date: Date)
    requires date.Valid() && 0 <= date.year <= 9_999
    ensures |Padded(date.year, 4)| == 4 && NumberOf(Padded(date.year, 4)) == date.year && |DateText(date)| == 10
  {
    hide Padded, NumberOf, DaysInMonth;
    NineDigits();
    PaddedIsExact(date.year, 4);
    MonthHasAtMost31(date);
    TwoDigits(date.month);
    TwoDigits(date.day);
  }

  lemma {:induction false} DateIsRead(b: bytes, s: string, date: Date)
    requires Codes(b, s) && date.Valid() && 0 <= date.year <= 9_999 && |s| >= 10 && s[..10] == DateText(date)
    ensures DateIn(b) == Ok(date)
  {
    hide Padded, NumberOf, DaysInMonth, DateIn;
    DateLength(date);
    MonthHasAtMost31(date);
    TwoDigits(date.month);
    TwoDigits(date.day);
    ReadDate(b, s, date, Padded(date.year, 4), Padded(date.month, 2), Padded(date.day, 2));
  }

  lemma {:induction false} FractionIsRead(b: bytes, s: string, f: string, z: string)
    requires Codes(b, s) && |s| >= 19 && |f| <= 9 && AllDigits(f) && EndsTime(z)
    requires s[19..] == (if f == "" then "" else "." + f) + z
    ensures FractionIn(b, 19) == Ok((Nanoseconds(f), |s| - |z|))
  {
    hide NumberOf, NumberIn, Pow10, DigitRun;
    if f == "" {
      assert s[19..] == z;
      assert z != "" ==> s[19] == z[0];
      NoNanoseconds();
    } else {
      var x := "." + f + z;
      assert s[19..] == x;
      assert s[19] == x[0] == '.' && |s| == 20 + |f| + |z|;
      assert forall i :: 0 <= i < |f| ==> s[20 + i] == x[i + 1] == f[i];
      assert z != "" ==> s[20 + |f|] == x[|f| + 1] == z[0];
      RunOfDigits(b[20..], |f|);
      NumberInDigits(b[20..20 + |f|], f);
    }
  }

  lemma {:induction false} NoNanoseconds()
    ensures Nanoseconds("") == 0
  {}

  lemma {:induction false} ClockIsRead(b: bytes, s: string, time: TimeOfDay, z: string)
    requires Codes(b, s) && WellTimed(time) && EndsTime(z) && |s| >= 10 && s[10..] == TimeText(time) + z
    ensures ClockIn(b) == Ok(Clock(time.second, Nanoseconds(time.fraction), |s| - |z|))
  {
    hide NumberOf, FractionIn, Nanoseconds, ClockIn, ClockText;
    TimeParts(s, time, z);
    FractionIsRead(b, s, time.fraction, z);
    ClockTextIsRead(b, s, time.second, Nanoseconds(time.fraction), |s| - |z|);
  }

  lemma {:induction false} TimeParts(s: string, time: TimeOfDay, z: string)
    requires |s| >= 10 && time.second < DAY && s[10..] == TimeText(time) + z
    ensures |s| >= 19 && s[10] == time.mark && s[11..19] == ClockText(time.second)
    ensures s[19..] == (if time.fraction == "" then "" else "." + time.fraction) + z
  {
    hide ClockText;
    ClockHasEight(time.second);
    var c, f := ClockText(time.second), if time.fraction == "" then "" else "." + time.fraction;
    var x := [time.mark] + c + f + z;
    assert s[10..] == x && x[0] == time.mark && x[1..9] == c && x[9..] == f + z;
    assert s[10] == s[10..][0] && s[11..19] == s[10..][1..9] && s[19..] == s[10..][9..];
  }

  lemma {:induction false} ClockTextIsRead(b: bytes, s: string, rem: nat, nanos: nat, pos: nat)
    requires Codes(b, s) && |s| >= 19 && (s[10] == 'T' || s[10] == 't' || s[10] == ' ')
    requires rem < DAY && s[11..19] == ClockText(rem) && FractionIn(b, 19) == Ok((nanos, pos))
    ensures ClockIn(b) == Ok(Clock(rem, nanos, pos))
  {
    hide Padded, NumberOf, NumberAt, FractionIn;
    var h, m, c := Padded(rem / 3_600, 2), Padded(rem % 3_600 / 60, 2), Padded(rem % 60, 2);
    TwoDigits(rem / 3_600);
    TwoDigits(rem % 3_600 / 60);
    TwoDigits(rem % 60);
    ClockParts(s, h, m, c);
    NumberAtDigits(b, s, 11, h);
    NumberAtDigits(b, s, 14, m);
    NumberAtDigits(b, s, 17, c);
  }

  lemma {:induction false} PartOfTail(s: string, pos: nat, i: nat, j: nat)
    requires pos + i <= pos + j <= |s|
    ensures s[pos..][i..j] == s[pos + i..pos + j]
    ensures i < j ==> s[pos..][i] == s[pos + i]
  {}

  lemma {:induction false} ZoneIsRead(b: bytes, s: string, z: Zone, pos: nat)
    requires Codes(b, s) && WellZoned(z) && pos <= |s| && s[pos..] == ZoneText(z)
    ensures OffsetIn(b, pos) == Ok(Ahead(z))
  {
    match z
    case NoZone =>
    case Zulu(mark) =>
      PartOfTail(s, pos, 0, 1);
    case Offset(west, hours, minutes, colon) =>
      OffsetIsRead(b, s, west, hours, minutes, colon, pos);
  }

  lemma {:induction false} OffsetParts(west: bool, hours: nat, minutes: nat, colon: bool)
    requires hours <= 23 && minutes <= 59
    ensures var x, at := ZoneText(Offset(west, hours, minutes, colon)), if colon then 4 else 3;
      && |x| == at + 2 && x[0] == (if west then '-' else '+') && (x[3] == ':' <==> colon)
      && x[1..3] == Padded(hours, 2) && x[at..at + 2] == Padded(minutes, 2)
      && |Padded(hours, 2)| == 2 && NumberOf(Padded(hours, 2)) == hours
      && |Padded(minutes, 2)| == 2 && NumberOf(Padded(minutes, 2)) == minutes
  {
    hide Padded, NumberOf;
    TwoDigits(hours);
    TwoDigits(minutes);
    var x := ZoneText(Offset(west, hours, minutes, colon));
    assert !colon ==> x[3] == Padded(minutes, 2)[0];
  }

  lemma {:induction false} OffsetIsRead(
    b: bytes, s: string, west: bool, hours: nat, minutes: nat, colon: bool, pos: nat)
    requires Codes(b, s) && hours <= 23 && minutes <= 59 && pos <= |s|
    requires s[pos..] == ZoneText(Offset(west, hours, minutes, colon))
    ensures OffsetIn(b, pos) == Ok(Ahead(Offset(west, hours, minutes, colon)))
  {
    hide Padded, NumberOf, NumberAt, ZoneText;
    var at := if colon then 4 else 3;
    OffsetParts(west, hours, minutes, colon);
    PartOfTail(s, pos, 0, 1);
    PartOfTail(s, pos, 3, 4);
    PartOfTail(s, pos, 1, 3);
    PartOfTail(s, pos, at, at + 2);
    NumberAtDigits(b, s, pos + 1, Padded(hours, 2));
    NumberAtDigits(b, s, pos + at, Padded(minutes, 2));
  }

  lemma {:induction false} JoinedIsAscii(s: string, t: string)
    requires Utf8.IsAscii(s) && Utf8.IsAscii(t)
    ensures Utf8.IsAscii(s + t)
  {}

  lemma {:induction false} TimeIsAscii(time: TimeOfDay)
    requires WellTimed(time)
    ensures Utf8.IsAscii(TimeText(time))
  {
    hide ClockText;
    ClockIsAscii(time.second);
    DigitsAreAscii(time.fraction);
    var f := if time.fraction == "" then "" else "." + time.fraction;
    JoinedIsAscii(".", time.fraction);
    JoinedIsAscii([time.mark], ClockText(time.second));
    JoinedIsAscii([time.mark] + ClockText(time.second), f);
  }

  lemma {:induction false} ZoneIsAscii(z: Zone)
    requires WellZoned(z)
    ensures Utf8.IsAscii(ZoneText(z))
  {
    hide Padded;
    if z.Offset? {
      var sign, colon := if z.west then "-" else "+", if z.colon then ":" else "";
      DigitsAreAscii(Padded(z.hours, 2));
      DigitsAreAscii(Padded(z.minutes, 2));
      JoinedIsAscii(sign, Padded(z.hours, 2));
      JoinedIsAscii(sign + Padded(z.hours, 2), colon);
      JoinedIsAscii(sign + Padded(z.hours, 2) + colon, Padded(z.minutes, 2));
    }
  }

  lemma {:induction false} WrittenIsAscii(w: Written)
    requires WellWritten(w)
    ensures Utf8.IsAscii(WrittenText(w))
  {
    hide DateText, TimeText, ZoneText, Utf8.IsAscii, WellTimed, WellZoned;
    DateIsAscii(w.date);
    ZoneIsAscii(w.zone);
    var time := if w.time.Some? then TimeText(w.time.value) else "";
    if w.time.Some? {
      TimeIsAscii(w.time.value);
    } else {
      DigitsAreAscii("");
    }
    JoinedIsAscii(DateText(w.date), time);
    JoinedIsAscii(DateText(w.date) + time, ZoneText(w.zone));
  }

  /** Whatever is well written parses to the time that is written. */
  lemma {:induction false} WrittenParses(w: Written)
    requires WellWritten(w)
    ensures Parse(WrittenText(w)) == Ok(WrittenTime(w))
  {
    hide DateText, TimeText, ZoneText, DateIn, ClockIn, OffsetIn, DaysFromCivil, Nanoseconds;
    var s, b := WrittenText(w), Utf8.Encode(WrittenText(w));
    WrittenIsAscii(w);
    Utf8.EncodeAscii(s);
    DateLength(w.date);
    var z := ZoneText(w.zone);
    ZoneEndsTime(w.zone);
    assert s[..10] == DateText(w.date);
    DateIsRead(b, s, w.date);
    if w.time.Some? {
      assert s[10..] == TimeText(w.time.value) + z;
      ClockIsRead(b, s, w.time.value, z);
    } else {
      assert s[10..] == z;
      NoClockIsRead(b, s, z);
    }
    assert s[|s| - |z|..] == z;
    ZoneIsRead(b, s, w.zone, |s| - |z|);
  }

  lemma {:induction false} NoClockIsRead(b: bytes, s: string, z: string)
    requires Codes(b, s) && |s| >= 10 && s[10..] == z && EndsTime(z)
    ensures ClockIn(b) == Ok(Clock(0, 0, 10))
  {
    assert z != "" ==> s[10] == z[0];
  }

  // ----- only what is well written parses

  lemma {:induction false} NumberIsPadded(b: bytes, s: string, pos: nat, len: nat)
    requires Codes(b, s) && len > 0 && NumberAt(b, pos, len).Some?
    ensures pos + len <= |s| && NumberAt(b, pos, len).value < Pow10(len)
    ensures s[pos..pos + len] == Padded(NumberAt(b, pos, len).value, len)
  {
    hide NumberIn, NumberOf, Padded, Pow10;
    var c, t := b[pos..pos + len], s[pos..pos + len];
    DigitsOfNumber(c, t);
    NumberInDigits(c, t);
    ValueBound(t);
    PaddedIsExact(NumberOf(t), len);
    SameDigits(t, Padded(NumberOf(t), len));
  }

  lemma {:induction false} DigitsOfNumber(b: bytes, s: string)
    requires Codes(b, s) && NumberIn(b).Some?
    ensures AllDigits(s)
  {
    forall i | 0 <= i < |s| ensures IsDigit(s[i]) {
      if !IsDigitByte(b[i]) {
        NotANumber(b, i);
        assert false;
      }
    }
  }

  lemma {:induction false} DateWasWritten(b: bytes, s: string)
    requires Codes(b, s) && DateIn(b).Ok?
    ensures var date := DateIn(b).value;
      date.Valid() && 0 <= date.year <= 9_999 && s[..10] == DateText(date)
  {
    hide NumberAt, Padded, DaysInMonth, Pow10;
    NineDigits();
    NumberIsPadded(b, s, 0, 4);
    NumberIsPadded(b, s, 5, 2);
    NumberIsPadded(b, s, 8, 2);
    assert s[..10] == s[0..4] + [s[4]] + s[5..7] + [s[7]] + s[8..10];
  }

  lemma {:induction false} DigitRunIsDigits(b: bytes)
    ensures forall i :: 0 <= i < DigitRun(b) ==> IsDigitByte(b[i])
  {
    if b != [] && IsDigitByte(b[0]) {
      DigitRunIsDigits(b[1..]);
      assert forall i :: 1 <= i < DigitRun(b) ==> b[i] == b[1..][i - 1];
    }
  }

  lemma {:induction false} FractionWasWritten(b: bytes, s: string, pos: nat) returns (f: string)
    requires Codes(b, s) && pos <= |s| && FractionIn(b, pos).Ok?
    ensures |f| <= 9 && AllDigits(f)
    ensures var (nanos, end) := FractionIn(b, pos).value;
      && pos <= end <= |s| && nanos == Nanoseconds(f)
      && s[pos..end] == if f == "" then "" else "." + f
  {
    hide NumberIn, NumberOf, Pow10, DigitRun;
    f := "";
    NoNanoseconds();
    if |b| > pos && b[pos] == 46 {
      var len := DigitRun(b[pos + 1..]);
      f := s[pos + 1..pos + 1 + len];
      DigitsOfNumber(b[pos + 1..pos + 1 + len], f);
      NumberInDigits(b[pos + 1..pos + 1 + len], f);
      assert s[pos..pos + 1 + len] == [s[pos]] + f;
    }
  }

  lemma {:induction false} ClockWasWritten(b: bytes, s: string) returns (time: Option<TimeOfDay>)
    requires Codes(b, s) && |s| >= 10 && ClockIn(b).Ok?
    ensures var clock := ClockIn(b).value;
      if time.None? then clock == Clock(0, 0, 10) else
        && WellTimed(time.value) && s[10..clock.pos] == TimeText(time.value)
        && clock.seconds == time.value.second && clock.nanos == Nanoseconds(time.value.fraction)
  {
    hide ClockIn, FractionIn, Nanoseconds, ClockText, TimeText, WellTimed;
    if |b| > 10 && (b[10] == 84 || b[10] == 116 || b[10] == 32) {
      ClockHadFraction(b);
      ClockTextWasWritten(b, s);
      var f := FractionWasWritten(b, s, 19);
      time := Some(TimeOfDay(s[10], ClockIn(b).value.seconds, f));
      TimeWasWritten(s, ClockIn(b).value.pos, time.value);
    } else {
      time := None;
      NoClockWasWritten(b);
    }
  }

  lemma {:induction false} NoClockWasWritten(b: bytes)
    requires |b| >= 10 && !(|b| > 10 && (b[10] == 84 || b[10] == 116 || b[10] == 32))
    ensures ClockIn(b) == Ok(Clock(0, 0, 10))
  {}

  lemma {:induction false} TimeWasWritten(s: string, pos: nat, time: TimeOfDay)
    requires 19 <= pos <= |s| && s[10] == time.mark && (s[10] == 'T' || s[10] == 't' || s[10] == ' ')
    requires time.second < DAY && |time.fraction| <= 9 && AllDigits(time.fraction)
    requires s[11..19] == ClockText(time.second) && s[19..pos] == if time.fraction == "" then "" else "." + time.fraction
    ensures WellTimed(time) && s[10..pos] == TimeText(time)
  {
    hide ClockText;
    assert s[10..pos] == [s[10]] + s[11..19] + s[19..pos];
  }

  lemma {:induction false} ClockHadFraction(b: bytes)
    requires |b| > 10 && (b[10] == 84 || b[10] == 116 || b[10] == 32) && ClockIn(b).Ok?
    ensures |b| >= 19 && FractionIn(b, 19) == Ok((ClockIn(b).value.nanos, ClockIn(b).value.pos))
  {
    hide NumberAt, FractionIn;
  }

  lemma {:induction false} ClockTextWasWritten(b: bytes, s: string)
    requires Codes(b, s) && |s| >= 19 && (b[10] == 84 || b[10] == 116 || b[10] == 32) && ClockIn(b).Ok?
    ensures ClockIn(b).value.seconds < DAY && s[11..19] == ClockText(ClockIn(b).value.seconds)
  {
    hide NumberAt, FractionIn, Padded, Pow10;
    var rem := ClockIn(b).value.seconds;
    NumberIsPadded(b, s, 11, 2);
    NumberIsPadded(b, s, 14, 2);
    NumberIsPadded(b, s, 17, 2);
    ClockOfParts(NumberAt(b, 11, 2).value, NumberAt(b, 14, 2).value, NumberAt(b, 17, 2).value, rem);
    assert s[11..19] == s[11..13] + [s[13]] + s[14..16] + [s[16]] + s[17..19];
  }

  lemma {:induction false} ClockOfParts(h: nat, m: nat, c: nat, rem: nat)
    requires h <= 23 && m <= 59 && c <= 59 && rem == h * 3_600 + m * 60 + c
    ensures rem < DAY && rem / 3_600 == h && rem % 3_600 / 60 == m && rem % 60 == c
  {
    HourOf(h, m * 60 + c);
    MinuteOf(m, c);
    MinuteOf(h * 60 + m, c);
  }

  lemma {:induction false} HourOf(h: nat, x: nat)
    requires x < 3_600
    ensures (h * 3_600 + x) / 3_600 == h && (h * 3_600 + x) % 3_600 == x
  {}

  lemma {:induction false} MinuteOf(m: nat, c: nat)
    requires c < 60
    ensures (m * 60 + c) / 60 == m && (m * 60 + c) % 60 == c
  {}

  lemma {:induction false} ZoneWasWritten(b: bytes, s: string, pos: nat) returns (z: Zone)
    requires Codes(b, s) && pos <= |s| && OffsetIn(b, pos).Ok?
    ensures WellZoned(z) && s[pos..] == ZoneText(z) && OffsetIn(b, pos).value == Ahead(z)
  {
    hide NumberAt, Padded, Pow10;
    if pos == |b| {
      z := NoZone;
    } else if b[pos] == 90 || b[pos] == 122 {
      z := Zulu(s[pos]);
      assert s[pos..] == [s[pos]];
    } else {
      NineDigits();
      var colon := pos + 3 < |b| && b[pos + 3] == 58;
      var at := if colon then pos + 4 else pos + 3;
      NumberIsPadded(b, s, pos + 1, 2);
      NumberIsPadded(b, s, at, 2);
      z := Offset(b[pos] == 45, NumberAt(b, pos + 1, 2).value, NumberAt(b, at, 2).value, colon);
      assert s[pos..] == [s[pos]] + s[pos + 1..pos + 3] + (if colon then [s[pos + 3]] else "") + s[at..at + 2];
    }
  }

  /** The characters whose codes these bytes are. */
  function CharsOf(b: bytes): (s: string)
    ensures Codes(b, s)
  {
    seq(|b|, i requires 0 <= i < |b| => b[i] as char)
  }

  lemma {:induction false} ParsedWasWritten(input: string) returns (w: Written)
    requires Parse(input).Ok?
    ensures WellWritten(w) && input == WrittenText(w)
  {
    hide DateText, TimeText, ZoneText, DateIn, ClockIn, OffsetIn, DaysFromCivil, Nanoseconds, Utf8.Encode;
    var b := Utf8.Encode(input);
    var s := CharsOf(b);
    DateAtLeastTen(b);
    DateWasWritten(b, s);
    var time := ClockWasWritten(b, s);
    var pos := ClockIn(b).value.pos;
    var z := ZoneWasWritten(b, s, pos);
    w := Written(DateIn(b).value, time, z);
    assert s == s[..10] + s[10..pos] + s[pos..];
    assert time.None? ==> s[10..pos] == "";
    assert s == WrittenText(w);
    WrittenIsAscii(w);
    Utf8.EncodeAscii(s);
    assert Utf8.Encode(s) == b;
    Utf8.EncodeInjective(s, input);
  }

  lemma {:induction false} DateAtLeastTen(b: bytes)
    ensures DateIn(b).Ok? ==> |b| >= 10
  {}

  /** This is how the time is written. */
  ghost predicate Denotes(w: Written, input: string, t: Timestamp) {
    WellWritten(w) && input == WrittenText(w) && t == WrittenTime(w)
  }

  /** What the parser accepts, and what it reads: exactly the texts that are well written, each as the time it denotes. */
  lemma {:induction false} ParsesExactly(input: string, t: Timestamp)
    ensures Parse(input) == Ok(t) <==> exists w :: Denotes(w, input, t)
  {
    hide Parse, WellWritten, WrittenText, WrittenTime;
    if Parse(input) == Ok(t) {
      var w := ParsedWasWritten(input);
      WrittenParses(w);
      assert Denotes(w, input, t);
    }
    forall w | Denotes(w, input, t) ensures Parse(input) == Ok(t) {
      WrittenParses(w);
    }
  }

  /** The printer writes a date and a time with `T`, a fraction without a zero at its end, and `Z`. */
  function Printed(t: Timestamp): Written {
    Written(DateOf(t), Some(TimeOfDay('T', t.secs % DAY, TrimEndZeros(if t.nanos > 0 then Padded(t.nanos, 9) else ""))),
            Zulu('Z'))
  }

  lemma {:induction false} PrintIsWritten(t: Timestamp)
    requires Printable(t)
    ensures WellWritten(Printed(t)) && Print(t) == WrittenText(Printed(t)) && WrittenTime(Printed(t)) == t
    ensures var f := Printed(t).time.value.fraction; f == "" || f[|f| - 1] != '0'
  {
    hide Padded, NumberOf, CivilFromDays, DaysFromCivil, DaysInMonth, ClockText, DateText, Pow10, TrimEndZeros;
    NoZeroAtEnd(Padded(t.nanos, 9));
    NoZeroAtEnd("");
    NoNanoseconds();
    if t.nanos > 0 {
      TrimmedFraction(t.nanos);
    }
    DaysOfCivil(t.secs / DAY);
  }

  lemma {:induction false} NoZeroAtEnd(s: string)
    ensures var f := TrimEndZeros(s); f == "" || f[|f| - 1] != '0'
  {
    if s != "" && s[|s| - 1] == '0' {
      NoZeroAtEnd(s[..|s| - 1]);
    }
  }

  /** Every timestamp of the years 0 to 9999 parses back from its own text, negative seconds included. */
  lemma {:induction false} ParsePrint(t: Timestamp)
    requires Printable(t)
    ensures Parse(Print(t)) == Ok(t)
  {
    hide Print, WrittenText, WrittenTime, Parse;
    PrintIsWritten(t);
    WrittenParses(Printed(t));
  }

  /** Local time with an offset: east of UTC it is ahead, and the offset is taken off; west of it, it is added. */
  lemma {:induction false} OffsetParses(t: Timestamp, west: bool, hours: nat, minutes: nat, colon: bool)
    requires hours <= 23 && minutes <= 59
    requires Printable(Timestamp(t.secs + Ahead(Offset(west, hours, minutes, colon)), t.nanos))
    ensures var local := Print(Timestamp(t.secs + Ahead(Offset(west, hours, minutes, colon)), t.nanos));
      && local[|local| - 1] == 'Z'
      && Parse(local[..|local| - 1] + ZoneText(Offset(west, hours, minutes, colon))) == Ok(t)
  {
    hide DateText, TimeText, Parse, DaysFromCivil, Print, DateOf, Padded, TrimEndZeros;
    var z := Offset(west, hours, minutes, colon);
    var u := Timestamp(t.secs + Ahead(z), t.nanos);
    PrintIsWritten(u);
    var local := Print(u);
    var w := Printed(u).(zone := z);
    assert local[..|local| - 1] + ZoneText(z) == WrittenText(w);
    WrittenParses(w);
  }

  /** The text of such a timestamp has at most 30 characters. */
  lemma {:induction false} PrintedLength(t: Timestamp)
    requires Printable(t)
    ensures |Print(t)| <= 30
  {
    hide Padded, NumberOf, DaysFromCivil, CivilFromDays, DaysInMonth, TrimEndZeros;
    var date, rem := DateOf(t), t.secs % DAY;
    NineDigits();
    PaddedIsExact(date.year, 4);
    MonthHasAtMost31(date);
    TwoDigits(date.month);
    TwoDigits(date.day);
    TwoDigits(rem / 3_600);
    TwoDigits(rem % 3_600 / 60);
    TwoDigits(rem % 60);
    PaddedIsExact(t.nanos, 9);
  }

  lemma {:induction false} MonthHasAtMost31(date: Date)
    requires date.Valid()
    ensures date.day <= 31 && date.month <= 12
  {}

  /** A parsed timestamp has less than a second of nanoseconds. */
  lemma {:induction false} ParsedNanos(b: bytes)
    requires ParseBytes(b).Ok?
    ensures ParseBytes(b).value.nanos < 1_000_000_000
  {
    hide NumberIn, DigitRun, Pow10, DaysFromCivil, DaysInMonth;
    if |b| > 19 && b[19] == 46 {
      var len := DigitRun(b[20..]);
      if 1 <= len <= 9 {
        NumberInBound(b[20..20 + len]);
        Pow10Sum(len, 9 - len);
        NineDigits();
        if NumberIn(b[20..20 + len]).Some? {
          ScaleBelow(NumberIn(b[20..20 + len]).value, Pow10(len), Pow10(9 - len));
        }
      }
    }
  }

  lemma {:induction false} ScaleBelow(v: nat, p: nat, q: nat)
    requires v < p && q > 0
    ensures v * q < p * q
  {}

  lemma {:induction false} NumberInBound(b: bytes)
    ensures NumberIn(b).Some? ==> NumberIn(b).value < Pow10(|b|)
  {
    if b != [] {
      NumberInBound(b[..|b| - 1]);
    }
  }

  lemma {:induction false} NoFourDigits(b: bytes)
    requires |b| >= 4 && (!IsDigitByte(b[0]) || (|b| > 4 && b[4] != 45))
    ensures ParseBytes(b).Err?
  {
    hide ClockIn, OffsetIn, NumberIn, DaysFromCivil, DaysInMonth;
    if !IsDigitByte(b[0]) {
      NotANumber(b[0..4], 0);
    }
  }

  /** Years of five digits or more, and negative years, are printed so that the parser refuses them. */
  lemma {:induction false} OtherYearsRefused(t: Timestamp)
    requires !(0 <= DateOf(t).year <= 9_999)
    ensures Parse(Print(t)).Err?
  {
    hide DateOf, Print, ParseBytes, YearText, Utf8.Encode;
    var s, y := Print(t), YearText(DateOf(t).year);
    PrintedStartsWithYear(t);
    assert s == y + s[|y|..];
    EncodePrefix(y, s[|y|..]);
    OtherYearText(DateOf(t).year);
    Utf8.EncodeAscii(y);
    NoFourDigits(Utf8.Encode(s));
  }

  /** The year is put behind a sign, or has a fifth digit. */
  lemma {:induction false} OtherYearText(year: int)
    requires !(0 <= year <= 9_999)
    ensures var y := YearText(year);
      |y| >= 4 && Utf8.IsAscii(y) && (!IsDigit(y[0]) || (|y| > 4 && y[4] != '-'))
  {
    if year >= 0 {
      LongYearText(year);
    }
  }

  lemma {:induction false} PrintedStartsWithYear(t: Timestamp)
    ensures YearText(DateOf(t).year) <= Print(t)
  {}

  lemma {:induction false} EncodePrefix(s: string, t: string)
    ensures Utf8.Encode(s) <= Utf8.Encode(s + t)
  {
    if s == "" {
      assert s + t == t;
    } else {
      EncodePrefix(s[1..], t);
      assert (s + t)[1..] == s[1..] + t;
    }
  }

  lemma {:induction false} LongYearText(y: nat)
    requires y > 9_999
    ensures |YearText(y)| >= 5
  {
    NineDigits();
    ValueOfText(y);
    if |ToText(y)| <= 4 {
      ValueBound(ToText(y));
      Pow10Monotone(|ToText(y)|, 4);
    }
  }

  /** The round trip, in full: it holds exactly for the years 0 to 9999 and nanoseconds below one second. */
  lemma {:induction false} ParsePrintExactly(t: Timestamp)
    ensures Parse(Print(t)) == Ok(t) <==> Printable(t)
  {
    hide Print, DateOf, ParseBytes;
    if !(0 <= DateOf(t).year <= 9_999) {
      OtherYearsRefused(t);
    } else if t.nanos < 1_000_000_000 {
      ParsePrint(t);
    } else if Parse(Print(t)).Ok? {
      ParsedNanos(Utf8.Encode(Print(t)));
    }
  }

  // ----- the text identifies the time, in every year

  lemma {:induction false} DateHoldsNo(date: Date, c: char)
    requires date.month >= 0 && date.day >= 0 && !IsDigit(c) && c != '-'
    ensures c !in DateText(date)
  {
    hide Padded;
    DigitsHoldNo(Padded(if date.year >= 0 then date.year else -date.year, if date.year >= 0 then 4 else 3), c);
    DigitsHoldNo(Padded(date.month, 2), c);
    DigitsHoldNo(Padded(date.day, 2), c);
  }

  lemma {:induction false} ClockHoldsNo(rem: nat, c: char)
    requires !IsDigit(c) && c != ':'
    ensures c !in ClockText(rem)
  {
    hide Padded;
    DigitsHoldNo(Padded(rem / 3_600, 2), c);
    DigitsHoldNo(Padded(rem % 3_600 / 60, 2), c);
    DigitsHoldNo(Padded(rem % 60, 2), c);
  }

  /** Only digits and a few marks occur in the text of a time. */
  lemma {:induction false} PrintHoldsNo(t: Timestamp, c: char)
    requires !IsDigit(c) && c != '-' && c != 'T' && c != ':' && c != '.' && c != 'Z'
    ensures c !in Print(t)
  {
    hide DateText, ClockText, Padded, DateOf, TrimEndZeros;
    DateHoldsNo(DateOf(t), c);
    ClockHoldsNo(t.secs % DAY, c);
    DigitsHoldNo(Padded(t.nanos, 9), c);
  }

  /** The text of a time has at least 20 characters. */
  lemma {:induction false} PrintedAtLeast(t: Timestamp)
    ensures |Print(t)| >= 20
  {
    hide Padded, DateOf, TrimEndZeros;
  }

  lemma {:induction false} PaddedInjective(a: nat, b: nat, w: nat)
    requires w > 0 && Padded(a, w) == Padded(b, w)
    ensures a == b
  {
    PaddedIsExact(a, w);
    PaddedIsExact(b, w);
  }

  lemma {:induction false} YearTextInjective(a: int, b: int)
    requires YearText(a) == YearText(b)
    ensures a == b
  {
    hide Padded;
    var x, y := YearText(a), YearText(b);
    assert a >= 0 ==> IsDigit(x[0]);
    assert b >= 0 ==> IsDigit(y[0]);
    if a >= 0 && b >= 0 {
      PaddedInjective(a, b, 4);
    } else if a < 0 && b < 0 {
      SameHead("-", Padded(-a, 3), Padded(-b, 3));
      PaddedInjective(-a, -b, 3);
    }
  }

  lemma {:induction false} SameTail<T>(a: seq<T>, u: seq<T>, b: seq<T>, v: seq<T>)
    requires |u| == |v| && a + u == b + v
    ensures a == b && u == v
  {
    assert |a| == |b|;
    assert a == (a + u)[..|a|] == b && u == (a + u)[|a|..] == v;
  }

  lemma {:induction false} DateTextInjective(a: Date, b: Date)
    requires a.Valid() && b.Valid() && DateText(a) == DateText(b)
    ensures a == b
  {
    hide Padded, YearText, DaysInMonth, NumberOf;
    MonthHasAtMost31(a);
    MonthHasAtMost31(b);
    TwoDigits(a.month);
    TwoDigits(b.month);
    TwoDigits(a.day);
    TwoDigits(b.day);
    SameTail(YearText(a.year) + "-" + Padded(a.month, 2) + "-", Padded(a.day, 2),
             YearText(b.year) + "-" + Padded(b.month, 2) + "-", Padded(b.day, 2));
    SameTail(YearText(a.year) + "-" + Padded(a.month, 2), "-", YearText(b.year) + "-" + Padded(b.month, 2), "-");
    SameTail(YearText(a.year) + "-", Padded(a.month, 2), YearText(b.year) + "-", Padded(b.month, 2));
    SameTail(YearText(a.year), "-", YearText(b.year), "-");
    YearTextInjective(a.year, b.year);
  }

  lemma {:induction false} ClockTextInjective(a: nat, b: nat)
    requires a < DAY && b < DAY && ClockText(a) == ClockText(b)
    ensures a == b
  {
    hide Padded, NumberOf;
    TwoDigits(a / 3_600);
    TwoDigits(b / 3_600);
    TwoDigits(a % 3_600 / 60);
    TwoDigits(b % 3_600 / 60);
    TwoDigits(a % 60);
    TwoDigits(b % 60);
    ThreeParts(Padded(a / 3_600, 2), Padded(a % 3_600 / 60, 2), Padded(a % 60, 2),
               Padded(b / 3_600, 2), Padded(b % 3_600 / 60, 2), Padded(b % 60, 2));
    ClockFromParts(a, b);
  }

  lemma {:induction false} ThreeParts(h: string, m: string, c: string, h': string, m': string, c': string)
    requires |h| == |h'| && |m| == |m'| && |c| == |c'|
    requires h + ":" + m + ":" + c == h' + ":" + m' + ":" + c'
    ensures h == h' && m == m' && c == c'
  {
    SameTail(h + ":" + m + ":", c, h' + ":" + m' + ":", c');
    SameTail(h + ":" + m, ":", h' + ":" + m', ":");
    SameTail(h + ":", m, h' + ":", m');
    SameTail(h, ":", h', ":");
  }

  lemma {:induction false} ClockFromParts(a: nat, b: nat)
    ensures a / 3_600 == b / 3_600 && a % 3_600 / 60 == b % 3_600 / 60 && a % 60 == b % 60 ==> a == b
  {}

  lemma {:induction false} ClockHasEight(rem: nat)
    requires rem < DAY
    ensures |ClockText(rem)| == 8
  {
    hide Padded, NumberOf;
    TwoDigits(rem / 3_600);
    TwoDigits(rem % 3_600 / 60);
    TwoDigits(rem % 60);
  }

  lemma {:induction false} FractionTextInjective(a: nat, b: nat)
    requires a < 1_000_000_000 && b < 1_000_000_000 && FractionText(a) == FractionText(b)
    ensures a == b
  {
    hide Padded, NumberOf, TrimEndZeros, Pow10;
    if a > 0 && b > 0 {
      SameHead(".", TrimEndZeros(Padded(a, 9)), TrimEndZeros(Padded(b, 9)));
      TrimmedFraction(a);
      TrimmedFraction(b);
    }
  }

  /** Below one second of nanoseconds, equal texts are equal times, in every year. */
  lemma {:induction false} PrintInjective(t: Timestamp, u: Timestamp)
    requires t.nanos < 1_000_000_000 && u.nanos < 1_000_000_000 && Print(t) == Print(u)
    ensures t == u
  {
    hide DateText, ClockText, FractionText, DaysFromCivil, CivilFromDays;
    var d, e := DateText(DateOf(t)), DateText(DateOf(u));
    var c, k := ClockText(t.secs % DAY), ClockText(u.secs % DAY);
    var f, g := FractionText(t.nanos), FractionText(u.nanos);
    DateHoldsNo(DateOf(t), 'T');
    DateHoldsNo(DateOf(u), 'T');
    PrintParts(t);
    PrintParts(u);
    SplitAtFirst(d, c + (f + "Z"), e, k + (g + "Z"), 'T');
    ClockHasEight(t.secs % DAY);
    ClockHasEight(u.secs % DAY);
    SameStart(c, f + "Z", k, g + "Z");
    SameTail(f, "Z", g, "Z");
    DateTextInjective(DateOf(t), DateOf(u));
    ClockTextInjective(t.secs % DAY, u.secs % DAY);
    FractionTextInjective(t.nanos, u.nanos);
    DaysOfCivil(t.secs / DAY);
    DaysOfCivil(u.secs / DAY);
  }

  lemma {:induction false} PrintParts(t: Timestamp)
    ensures Print(t) == DateText(DateOf(t)) + ['T'] + (ClockText(t.secs % DAY) + (FractionText(t.nanos) + "Z"))
  {
    hide DateText, ClockText, FractionText, DateOf;
  }

  lemma {:induction false} SameStart<T>(a: seq<T>, u: seq<T>, b: seq<T>, v: seq<T>)
    requires |a| == |b| && a + u == b + v
    ensures a == b && u == v
  {
    assert a == (a + u)[..|a|] == b && u == (a + u)[|a|..] == v;
  }

  /** The bound is needed: a whole second of nanoseconds is printed like a tenth of one. */
  lemma {:induction false} SecondOfNanosLooksLikeATenth()
    ensures FractionText(1_000_000_000) == FractionText(100_000_000)
  {
    hide Pow10;
    assert Pow10(9) == 1_000_000_000 && Pow10(8) == 100_000_000 by {
      NineDigits();
      PowerSteps();
    }
    TextLength(100_000_000);
    LengthFrom(100_000_000, 8);
    assert ToText(1_000_000_000) == ToText(100_000_000) + "0";
    TrimmedOfZero(ToText(100_000_000));
  }

  lemma {:induction false} PowerSteps()
    ensures Pow10(8) * 10 == Pow10(9)
  {}

  lemma {:induction false} LengthFrom(n: nat, k: nat)
    requires Pow10(k) <= n < Pow10(k + 1)
    ensures |ToText(n)| == k + 1
  {
    TextLength(n);
    var m := |ToText(n)|;
    if m > k + 1 {
      Pow10Monotone(k + 1, m - 1);
    }
    if m < k + 1 {
      Pow10Monotone(m, k);
    }
  }

  lemma {:induction false} TrimmedOfZero(s: string)
    ensures TrimEndZeros(s + "0") == TrimEndZeros(s)
  {
    assert (s + "0")[..|s|] == s;
  }
}
