/** Time-of-day conversions and the "HH:MM" / "HH:MM:SS" clock strings
    of src/utils/formatters.ts. */
module Formatters {
  import opened Types
  import opened JsNumbers

  // ---------------------------------------------------------------------------
  // Timestamps to day-relative minutes and seconds
  // ---------------------------------------------------------------------------

  /** Minutes since UTC midnight; the seconds field is dropped. */
  function TimeToMinutes(t: TimeOfDay): (r: int)
    ensures 0 <= r < 1440
    ensures r / 60 == t.hours && r % 60 == t.minutes
  {
    t.hours * 60 + t.minutes
  }

  /** Seconds since UTC midnight. */
  function TimeToSeconds(t: TimeOfDay): (r: int)
    ensures 0 <= r < 86400
    ensures r / 3600 == t.hours && (r % 3600) / 60 == t.minutes && r % 60 == t.seconds
  {
    t.hours * 3600 + t.minutes * 60 + t.seconds
  }

  /** The minute count is the second count with the seconds dropped. */
  lemma MinutesAreWholeSeconds(t: TimeOfDay)
    ensures TimeToMinutes(t) == TimeToSeconds(t) / 60
  {
  }

  /** Two timestamps in the same UTC minute have the same minute count,
      whatever their seconds. */
  lemma MinutesIgnoreSeconds(t: TimeOfDay, u: TimeOfDay)
    requires t.hours == u.hours && t.minutes == u.minutes
    ensures TimeToMinutes(t) == TimeToMinutes(u)
  {
  }

  /** True when the clock time of `a` comes strictly before that of `b`, at minute resolution. */
  predicate MinuteBefore(a: TimeOfDay, b: TimeOfDay)
  {
    a.hours < b.hours || (a.hours == b.hours && a.minutes < b.minutes)
  }

  /** Duration in minutes of an incident; negative when the end's clock time
      precedes the start's (an incident crossing midnight). */
  function IncidentDuration(tsStart: TimeOfDay, tsEnd: TimeOfDay): (r: int)
    ensures -1440 < r < 1440
    ensures r == 0 <==> (tsStart.hours == tsEnd.hours && tsStart.minutes == tsEnd.minutes)
    ensures r < 0 <==> MinuteBefore(tsEnd, tsStart)
    ensures r > 0 <==> MinuteBefore(tsStart, tsEnd)
  {
    TimeToMinutes(tsEnd) - TimeToMinutes(tsStart)
  }

  // ---------------------------------------------------------------------------
  // Clock strings
  // ---------------------------------------------------------------------------

  /** "HH:MM" for a whole number of minutes; hours are not wrapped at 24.
      (`Math.floor(minutes / 60)` on an integer is Dafny's `/`, which floors for
      a positive divisor.) */
  function MinutesToTime(minutes: int): string
  {
    PadStart2(IntToString(minutes / 60)) + ":" + PadStart2(IntToString(JsRem(minutes, 60)))
  }

  /** "HH:MM:SS" for a possibly fractional number of minutes, rounded to whole seconds. */
  function MinutesToTimeWithSeconds(minutes: real): string
  {
    var totalSeconds := JsRound(minutes * 60.0);
    PadStart2(IntToString(totalSeconds / 3600)) + ":"
    + PadStart2(IntToString(JsRem(totalSeconds, 3600) / 60)) + ":"
    + PadStart2(IntToString(JsRem(totalSeconds, 60)))
  }
}

/** What the clock strings of `Formatters` display: each field reads back as
    the number it was built from. Kept apart from the definitions so that the
    solver sees the clock functions only through these statements. */
module ClockReadback {
  import opened Types
  import opened JsNumbers
  import opened Formatters

  /** A clock string "A:B" with a two-character last field splits back into its fields. */
  lemma SplitTwoFields(a: string, b: string)
    requires |b| == 2
    ensures var r := a + ":" + b;
      |r| == |a| + 3 && r[..|r| - 3] == a && r[|r| - 3] == ':' && r[|r| - 2..] == b
  {
  }

  /** A clock string "A:B:C" with two-character last fields splits back into its fields. */
  lemma SplitThreeFields(a: string, b: string, c: string)
    requires |b| == 2 && |c| == 2
    ensures var r := a + ":" + b + ":" + c;
      |r| == |a| + 6 && r[..|r| - 6] == a && r[|r| - 6] == ':' && r[|r| - 5..|r| - 3] == b
      && r[|r| - 3] == ':' && r[|r| - 2..] == c
  {
  }

  /** For m >= 0, "HH:MM" is the zero-padded fields m / 60 and m % 60. */
  lemma MinutesToTimeIsFields(m: nat)
    ensures MinutesToTime(m) == Field(m / 60) + ":" + Field(m % 60)
  {
    assert JsRem(m, 60) == m % 60;
    assert IntToString(m / 60) == NatToString(m / 60);
    assert IntToString(m % 60) == NatToString(m % 60);
  }

  /** A string "H:MM" built from two fields reads back as the two numbers. */
  lemma TwoFieldsReadBack(r: string, h: nat, mm: nat)
    requires mm < 100 && r == Field(h) + ":" + Field(mm)
    ensures |r| >= 5 && r[|r| - 3] == ':'
      && ReadsAs(r[..|r| - 3], h) && ReadsAs(r[|r| - 2..], mm)
      && (h < 100 ==> |r| == 5)
      && (h >= 100 ==> |r[..|r| - 3]| >= 3)
  {
    FieldReadsBack(h);
    FieldReadsBack(mm);
    SplitTwoFields(Field(h), Field(mm));
  }

  /** For m >= 0, "HH:MM" is the hour field, a colon and a two-digit minute
      field; the fields read back as m / 60 and m % 60, and the hour field
      keeps all its digits. */
  lemma MinutesToTimeFields(m: nat)
    ensures var r := MinutesToTime(m);
      |r| >= 5 && r[|r| - 3] == ':'
      && ReadsAs(r[..|r| - 3], m / 60) && ReadsAs(r[|r| - 2..], m % 60)
      && (m < 6000 ==> |r| == 5)
      && (m >= 6000 ==> |r[..|r| - 3]| >= 3)
  {
    MinutesToTimeIsFields(m);
    TwoFieldsReadBack(MinutesToTime(m), m / 60, m % 60);
    assert m >= 6000 ==> m / 60 >= 100;
    assert m < 6000 ==> m / 60 < 100;
  }

  /** Within the day, "HH:MM" has five characters and reads back as the minute count. */
  lemma MinutesToTimeInDay(m: int)
    requires 0 <= m < 1440
    ensures var r := MinutesToTime(m);
      |r| == 5 && r[2] == ':' && AllDigits(r[..2]) && AllDigits(r[3..])
      && DigitsValue(r[..2]) < 24 && DigitsValue(r[3..]) < 60
      && 60 * DigitsValue(r[..2]) + DigitsValue(r[3..]) == m
  {
    MinutesToTimeFields(m);
  }

  /** A string "HH:MM" built from two fields below 100 is their four digits around a colon. */
  lemma TwoFieldsDigits(r: string, h: nat, mm: nat)
    requires h < 100 && mm < 100 && r == Field(h) + ":" + Field(mm)
    ensures |r| == 5 && r[2] == ':'
      && r[0] == DigitChar(h / 10) && r[1] == DigitChar(h % 10)
      && r[3] == DigitChar(mm / 10) && r[4] == DigitChar(mm % 10)
  {
    TwoDigitField(h);
    TwoDigitField(mm);
  }

  /** Within the day, each character of "HH:MM" is the matching decimal digit
      of the hours or of the minutes. */
  lemma MinutesToTimeDigits(m: int)
    requires 0 <= m < 1440
    ensures var r := MinutesToTime(m);
      |r| == 5 && r[2] == ':'
      && r[0] == DigitChar((m / 60) / 10) && r[1] == DigitChar((m / 60) % 10)
      && r[3] == DigitChar((m % 60) / 10) && r[4] == DigitChar((m % 60) % 10)
  {
    MinutesToTimeIsFields(m);
    TwoFieldsDigits(MinutesToTime(m), m / 60, m % 60);
  }

  /** Midnight prints as "00:00". */
  lemma MinutesToTimeMidnight()
    ensures MinutesToTime(0) == "00:00"
  {
  }

  /** The end of the day prints as "24:00": hours are not wrapped. */
  lemma MinutesToTimeEndOfDay()
    ensures MinutesToTime(1440) == "24:00"
  {
  }

  /** "HH:MM:SS" on a whole number of seconds t >= 0 is the fields t / 3600,
      (t % 3600) / 60 and t % 60. */
  lemma WithSecondsIsFields(minutes: real)
    requires minutes >= 0.0
    ensures var t := JsRound(minutes * 60.0);
      t >= 0 && MinutesToTimeWithSeconds(minutes)
             == Field(t / 3600) + ":" + Field((t % 3600) / 60) + ":" + Field(t % 60)
  {
    var t := JsRound(minutes * 60.0);
    assert JsRem(t, 3600) == t % 3600;
    assert JsRem(t, 60) == t % 60;
    assert IntToString(t / 3600) == NatToString(t / 3600);
    assert IntToString((t % 3600) / 60) == NatToString((t % 3600) / 60);
    assert IntToString(t % 60) == NatToString(t % 60);
  }

  /** A string "H:MM:SS" built from three fields reads back as the three numbers. */
  lemma ThreeFieldsReadBack(r: string, h: nat, mm: nat, ss: nat)
    requires mm < 100 && ss < 100 && r == Field(h) + ":" + Field(mm) + ":" + Field(ss)
    ensures |r| >= 8 && r[|r| - 6] == ':' && r[|r| - 3] == ':'
      && ReadsAs(r[..|r| - 6], h) && ReadsAs(r[|r| - 5..|r| - 3], mm) && ReadsAs(r[|r| - 2..], ss)
      && (h < 100 ==> |r| == 8)
  {
    FieldReadsBack(h);
    FieldReadsBack(mm);
    FieldReadsBack(ss);
    SplitThreeFields(Field(h), Field(mm), Field(ss));
  }

  /** Whole seconds split into hours, minutes below 60 and seconds below 60. */
  lemma SecondsRecompose(t: nat)
    ensures (t % 3600) / 60 < 60 && t % 60 < 60
    ensures 3600 * (t / 3600) + 60 * ((t % 3600) / 60) + t % 60 == t
  {
    var h, rest := t / 3600, t % 3600;
    var m, sec := rest / 60, rest % 60;
    assert rest == 60 * m + sec && 0 <= sec < 60 && m < 60;
    assert t == 60 * (60 * h + m) + sec;
    assert t % 60 == sec;
  }

  /** For minutes >= 0, with t the rounded total seconds, "HH:MM:SS" reads
      back as t / 3600, (t % 3600) / 60 and t % 60, which lie in range and
      recompose to t. */
  lemma MinutesToTimeWithSecondsFields(minutes: real)
    requires minutes >= 0.0
    ensures var t := JsRound(minutes * 60.0);
      var r := MinutesToTimeWithSeconds(minutes);
      t >= 0 && |r| >= 8 && r[|r| - 6] == ':' && r[|r| - 3] == ':'
      && ReadsAs(r[..|r| - 6], t / 3600)
      && ReadsAs(r[|r| - 5..|r| - 3], (t % 3600) / 60) && (t % 3600) / 60 < 60
      && ReadsAs(r[|r| - 2..], t % 60) && t % 60 < 60
      && 3600 * (t / 3600) + 60 * ((t % 3600) / 60) + t % 60 == t
  {
    var t := JsRound(minutes * 60.0);
    WithSecondsIsFields(minutes);
    var hh, mm, ss := t / 3600, (t % 3600) / 60, t % 60;
    SecondsRecompose(t);
    ThreeFieldsReadBack(MinutesToTimeWithSeconds(minutes), hh, mm, ss);
  }

  /** A scrubber placed exactly on a boundary (its seconds over 60) displays
      that timestamp's UTC clock fields exactly, in eight characters. */
  lemma SnappedTimeDisplaysExactly(t: TimeOfDay)
    ensures MinutesToTimeWithSeconds(TimeToSeconds(t) as real / 60.0)
         == Field(t.hours) + ":" + Field(t.minutes) + ":" + Field(t.seconds)
    ensures |MinutesToTimeWithSeconds(TimeToSeconds(t) as real / 60.0)| == 8
  {
    var secs := TimeToSeconds(t);
    var minutes := secs as real / 60.0;
    assert minutes * 60.0 == secs as real;
    assert JsRound(minutes * 60.0) == secs;
    WithSecondsIsFields(minutes);
    ThreeFieldsReadBack(MinutesToTimeWithSeconds(minutes), t.hours, t.minutes, t.seconds);
  }
}
