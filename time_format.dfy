/**
 * Schedule times: the 12-hour display label (format_time) and the
 * future/past flag against the current time (format_and_flag_time).
 * Schedule hours keep counting past 23 for service after midnight.
 */
module TimeFormat {
  import opened Common
  import opened Text

  /** A raw schedule time "HH:MM:SS" as stored in the stop time rows. */
  predicate ValidTime(t: string) {
    && |t| == 8
    && IsDigit(t[0]) && IsDigit(t[1]) && t[2] == ':'
    && IsDigit(t[3]) && IsDigit(t[4]) && t[5] == ':'
    && IsDigit(t[6]) && IsDigit(t[7])
  }

  /** The hour field read as an integer (String#to_i of "HH"). */
  function HourOf(t: string): nat
    requires ValidTime(t)
  {
    DigitValue(t[0]) * 10 + DigitValue(t[1])
  }

  /** The minute field, as the characters "MM". */
  function MinuteField(t: string): string
    requires ValidTime(t)
  {
    t[3..5]
  }

  function MinuteOf(t: string): nat
    requires ValidTime(t)
  {
    DigitValue(t[3]) * 10 + DigitValue(t[4])
  }

  /** The hour of the day a 12-hour reading denotes: 12a is midnight, 12p is noon. */
  function To24(hour: nat, suffix: char): nat {
    if suffix == 'a' then (if hour == 12 then 0 else hour)
    else (if hour == 12 then 12 else hour + 12)
  }

  /**
   * The hour and the 'a'/'p' suffix format_time prints for a schedule hour.
   * For every hour up to 35 the printed pair reads back as the hour of the
   * day; hours past 24 always print with 'a'.
   */
  function ClockHour(h: nat): (r: (nat, char))
    ensures r.0 >= 1 && (r.1 == 'a' || r.1 == 'p')
    ensures h <= 35 ==> r.0 <= 12 && To24(r.0, r.1) == h % 24
    ensures h > 24 ==> r == (h - 24, 'a')
  {
    if h > 24 then (h - 24, 'a')
    else if h == 12 then (12, 'p')
    else if h == 24 then (12, 'a')
    else if h > 12 then (h - 12, 'p')
    else if h == 0 then (12, 'a')
    else (h, 'a')
  }

  /** A time of day: hour 0..23 and the minute characters. */
  datatype DayTime = DayTime(hour: nat, minute: string)

  /** Reads a label "H:MMs" (hour 1..12, suffix 'a' or 'p') back as a time of day. */
  function ParseLabel(text: string): Option<DayTime>
  {
    if |text| < 5 then None
    else
      var n := |text|;
      var hourText := text[..n - 4];
      var suffix := text[n - 1];
      if text[n - 4] == ':' && AllDigits(hourText) && (suffix == 'a' || suffix == 'p')
         && 1 <= ParseNat(hourText) <= 12
      then Some(DayTime(To24(ParseNat(hourText), suffix), text[n - 3..n - 1]))
      else None
  }

  /**
   * format_time: "HH:MM:SS" to a 12-hour label "H:MMa" / "H:MMp". The hour
   * is not zero padded, the minute characters are copied verbatim, and up to
   * hour 35 the label reads back as the same time of day.
   */
  function FormatTime(t: string): (text: string)
    requires ValidTime(t)
    ensures |text| >= 5 && text[0] != '0'
    ensures text[|text| - 3..|text| - 1] == MinuteField(t)
    ensures text[|text| - 1] == ClockHour(HourOf(t)).1
    ensures HourOf(t) <= 35 ==> ParseLabel(text) == Some(DayTime(HourOf(t) % 24, MinuteField(t)))
  {
    var (hour, suffix) := ClockHour(HourOf(t));
    var hourText := NatToString(hour);
    var text := hourText + ":" + MinuteField(t) + [suffix];
    ParseNatToString(hour);
    assert text[..|text| - 4] == hourText;
    assert text[|text| - 4] == ':';
    text
  }

  /** The hour "now" is compared under: before 4 am it counts as hour 24..27 of the previous service day. */
  function ServiceHour(nowHour: nat): nat {
    if nowHour < 4 then nowHour + 24 else nowHour
  }

  /** The service hour is the same hour of the day, never before 4, and for a clock hour at most 27. */
  lemma ServiceHourOfDay(nowHour: nat)
    ensures ServiceHour(nowHour) % 24 == nowHour % 24 && ServiceHour(nowHour) >= 4
    ensures nowHour < 24 ==> ServiceHour(nowHour) < 28
  {
  }

  /** "%.2d:%.2d" of the service hour and the minute. */
  function NowString(nowHour: nat, nowMin: nat): string {
    Pad2(ServiceHour(nowHour)) + ":" + Pad2(nowMin)
  }

  /** Below 100 hours and minutes, the now string is "HH:MM": two digits of each, read back as the service hour and the minute. */
  lemma NowStringFields(nowHour: nat, nowMin: nat)
    requires ServiceHour(nowHour) < 100 && nowMin < 100
    ensures var r := NowString(nowHour, nowMin);
      && |r| == 5 && r[2] == ':'
      && AllDigits(r[..2]) && ParseNat(r[..2]) == ServiceHour(nowHour)
      && AllDigits(r[3..]) && ParseNat(r[3..]) == nowMin
  {
    var h, m := Pad2(ServiceHour(nowHour)), Pad2(nowMin);
    assert NowString(nowHour, nowMin)[..2] == h && NowString(nowHour, nowMin)[3..] == m;
  }

  /** A display label with its flag: 1 for a time not yet passed, -1 for one already past. */
  datatype Flagged = Flagged(text: string, flag: int)

  /**
   * format_and_flag_time: nothing for an absent time; otherwise the label and
   * the flag 1 exactly when the "HH:MM" prefix is not lexicographically below
   * the "now" string.
   */
  function FormatAndFlagTime(time: Option<string>, nowHour: nat, nowMin: nat): (r: Option<Flagged>)
    requires time.Some? ==> ValidTime(time.value)
    ensures r.None? <==> time.None?
    ensures r.Some? ==> r.value.text == FormatTime(time.value)
    ensures r.Some? ==> (r.value.flag == 1 || r.value.flag == -1)
    ensures r.Some? ==>
      (r.value.flag == 1 <==> !LexLess(time.value[..5], NowString(nowHour, nowMin)))
  {
    match time
    case None => None
    case Some(t) =>
      var timeString := t[..5];
      if LexLess(timeString, NowString(nowHour, nowMin)) then Some(Flagged(FormatTime(t), -1))
      else Some(Flagged(FormatTime(t), 1))
  }

  /**
   * For a real clock reading, the string comparison is the numeric one: the
   * flag is 1 exactly when HH:MM is not earlier than the (service) hour and
   * minute of now, both fields compared as two-digit numbers.
   */
  lemma FlagIsNumeric(t: string, nowHour: nat, nowMin: nat)
    requires ValidTime(t) && nowHour < 24 && nowMin < 60
    ensures FormatAndFlagTime(Some(t), nowHour, nowMin).value.flag == 1 <==>
      HourOf(t) * 100 + MinuteOf(t) >= ServiceHour(nowHour) * 100 + nowMin
  {
    var hh, mm := t[..2], t[3..5];
    var nh, nm := Pad2(ServiceHour(nowHour)), Pad2(nowMin);
    assert t[..5] == hh + (":" + mm);
    assert NowString(nowHour, nowMin) == nh + (":" + nm);
    LexLessConcat(hh, ":" + mm, nh, ":" + nm);
    LexLessConcat(":", mm, ":", nm);
    assert !LexLess(":", ":");
    ParseTwoDigits(hh);
    ParseTwoDigits(mm);
    TwoDigitLexLess(hh, nh);
    TwoDigitLexLess(mm, nm);
  }

  /** With minutes below 60 the flag compares minutes since the start of the service day. */
  lemma FlagByMinutes(t: string, nowHour: nat, nowMin: nat)
    requires ValidTime(t) && MinuteOf(t) < 60 && nowHour < 24 && nowMin < 60
    ensures FormatAndFlagTime(Some(t), nowHour, nowMin).value.flag == 1 <==>
      HourOf(t) * 60 + MinuteOf(t) >= ServiceHour(nowHour) * 60 + nowMin
  {
    FlagIsNumeric(t, nowHour, nowMin);
  }

  /** At 1 am, 25:10 is still to come until 1:10 (the hour of now counts as 25). */
  lemma LateNightArrival(nowMin: nat)
    requires nowMin < 60
    ensures FormatAndFlagTime(Some("25:10:00"), 1, nowMin).value.flag == 1 <==> nowMin <= 10
  {
    assert ValidTime("25:10:00");
    assert HourOf("25:10:00") == 25 && MinuteOf("25:10:00") == 10;
    FlagIsNumeric("25:10:00", 1, nowMin);
  }
}
