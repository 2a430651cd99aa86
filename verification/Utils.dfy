/**
 * The pure helpers of opes-frontend-zip/lib/utils.js: the answer-status
 * label, the effective exam duration, the "h hr m min" duration text and the
 * value of an HTML datetime-local input.
 */
module Utils {
  import opened Text

  // ---------------------------------------------------------------------------
  // getAnswerStatus

  /** The JavaScript values an answer's correctness flag can hold. */
  datatype JsValue = JsBool(b: bool) | JsString(s: string) | JsNumber(n: int) | JsNull | JsUndefined

  /**
   * getAnswerStatus: a switch under strict equality, so only the boolean
   * true, the boolean false and the string "InApplicable" have a label;
   * every other value, the string "true" or the number 1 included, gets "".
   */
  function AnswerStatus(answer: JsValue): (status: string)
    ensures status == "Correct" <==> answer == JsBool(true)
    ensures status == "Incorrect" <==> answer == JsBool(false)
    ensures status == "InApplicable" <==> answer == JsString("InApplicable")
    ensures status == "" <==> answer != JsBool(true) && answer != JsBool(false) && answer != JsString("InApplicable")
  {
    match answer
    case JsBool(true) => "Correct"
    case JsBool(false) => "Incorrect"
    case JsString(s) => if s == "InApplicable" then "InApplicable" else ""
    case _ => ""
  }

  // ---------------------------------------------------------------------------
  // getEffectiveDuration

  /** Whole seconds from now until the end of the window, rounded down: Math.floor((end - now) / 1000). */
  function SecondsLeft(nowMs: int, endMs: int): (s: int)
    ensures s * 1000 <= endMs - nowMs < s * 1000 + 1000
  {
    (endMs - nowMs) / 1000
  }

  /**
   * getEffectiveDuration: the configured duration cut down to the seconds
   * left in the exam window, and never below zero. Times are milliseconds.
   */
  function EffectiveDuration(nowMs: int, endMs: int, configuredDuration: int): (r: int)
    ensures r >= 0
    ensures configuredDuration >= 0 ==> r <= configuredDuration
    ensures SecondsLeft(nowMs, endMs) >= 0 ==> r <= SecondsLeft(nowMs, endMs)
    ensures r * 1000 <= if endMs > nowMs then endMs - nowMs else 0
    ensures endMs <= nowMs ==> r == 0
    ensures configuredDuration <= 0 ==> r == 0
    ensures 0 <= configuredDuration <= SecondsLeft(nowMs, endMs) ==> r == configuredDuration
    ensures 0 <= SecondsLeft(nowMs, endMs) <= configuredDuration ==> r == SecondsLeft(nowMs, endMs)
    ensures r == 0 || r == configuredDuration || r == SecondsLeft(nowMs, endMs)
  {
    var timeLeft := SecondsLeft(nowMs, endMs);
    var capped := if configuredDuration < timeLeft then configuredDuration else timeLeft;
    if 0 > capped then 0 else capped
  }

  // ---------------------------------------------------------------------------
  // formatDuration

  /** mins % 60 as JavaScript computes it: the remainder takes the sign of the dividend. */
  function JsRemainder60(mins: int): (r: int)
    ensures mins >= 0 ==> 0 <= r < 60
    ensures mins < 0 ==> -60 < r <= 0
    ensures (mins - r) % 60 == 0
  {
    if mins >= 0 then mins % 60 else -((-mins) % 60)
  }

  /**
   * formatDuration: `${hrs} hr ${remainingMins} min`, `${hrs} hr` or
   * `${remainingMins} min`. A part that is zero is false to JavaScript, so the
   * hours alone are shown for whole hours and the minutes alone when there
   * are no hours. Math.floor on the hours is Dafny's division by a positive
   * divisor.
   */
  function FormatDuration(seconds: int): string
    requires seconds % 60 == 0
  {
    var mins := seconds / 60;
    var hrs := mins / 60;
    var remainingMins := JsRemainder60(mins);
    if hrs != 0 && remainingMins != 0 then
      Joined(IntToString(hrs), ' ', Joined("hr", ' ', Joined(IntToString(remainingMins), ' ', "min")))
    else if hrs != 0 then Joined(IntToString(hrs), ' ', "hr")
    else Joined(IntToString(remainingMins), ' ', "min")
  }

  /** Reads "h hr m min", "h hr" or "m min" back into seconds. */
  function ReadDuration(t: string): Option<nat> {
    match SplitAt(t, ' ')
    case None => None
    case Some((n, unit)) => if IsNumeral(n) then ReadUnit(ParseNat(n), unit) else None
  }

  /** What follows the leading number n: its unit, and the minutes after an hour count. */
  function ReadUnit(n: nat, unit: string): Option<nat> {
    if unit == "min" then Some(n * 60)
    else if unit == "hr" then Some(n * 3600)
    else
      match SplitAt(unit, ' ')
      case None => None
      case Some((word, rest)) => if word == "hr" then ReadTrailingMinutes(n, rest) else None
  }

  function ReadTrailingMinutes(hours: nat, t: string): Option<nat> {
    match SplitAt(t, ' ')
    case None => None
    case Some((m, rest)) => if IsNumeral(m) && rest == "min" then Some(hours * 3600 + ParseNat(m) * 60) else None
  }

  /** A non-negative whole number of minutes splits into hours and the minutes below an hour. */
  lemma DurationParts(seconds: int)
    requires seconds >= 0 && seconds % 60 == 0
    ensures (seconds / 60) / 60 == seconds / 3600
    ensures JsRemainder60(seconds / 60) == (seconds / 60) % 60
    ensures seconds == seconds / 3600 * 3600 + (seconds / 60) % 60 * 60
  {
  }

  /** Which of the three texts a non-negative whole number of minutes takes. */
  lemma DurationText(seconds: int)
    requires seconds >= 0 && seconds % 60 == 0
    ensures var h, m := seconds / 3600, (seconds / 60) % 60;
      && (h > 0 && m > 0 ==> FormatDuration(seconds) == Joined(NatToString(h), ' ', Joined("hr", ' ', Joined(NatToString(m), ' ', "min"))))
      && (h > 0 && m == 0 ==> FormatDuration(seconds) == Joined(NatToString(h), ' ', "hr"))
      && (h == 0 ==> FormatDuration(seconds) == Joined(NatToString(m), ' ', "min"))
  {
    DurationParts(seconds);
  }

  /**
   * For a non-negative whole number of minutes: both parts when both are
   * non-zero, the hours alone for whole hours, the minutes alone under an hour.
   */
  lemma FormatDurationCases(seconds: int)
    requires seconds >= 0 && seconds % 60 == 0
    ensures var h, m := seconds / 3600, (seconds / 60) % 60;
      && (h > 0 && m > 0 ==> FormatDuration(seconds) == NatToString(h) + " hr " + NatToString(m) + " min")
      && (h > 0 && m == 0 ==> FormatDuration(seconds) == NatToString(h) + " hr")
      && (h == 0 ==> FormatDuration(seconds) == NatToString(m) + " min")
  {
    var h, m := seconds / 3600, (seconds / 60) % 60;
    DurationText(seconds);
    var hs, ms := NatToString(h), NatToString(m);
    if h > 0 && m > 0 {
      HoursMinutesText(hs, ms);
    } else if h > 0 {
      assert hs + " hr" == Joined(hs, ' ', "hr");
    } else {
      assert ms + " min" == Joined(ms, ' ', "min");
    }
  }

  lemma HoursMinutesText(hs: string, ms: string)
    ensures hs + " hr " + ms + " min" == Joined(hs, ' ', Joined("hr", ' ', Joined(ms, ' ', "min")))
  {
    var r := Joined(hs, ' ', Joined("hr", ' ', Joined(ms, ' ', "min")));
    var l := hs + " hr " + ms + " min";
    assert |l| == |r|;
    forall i | 0 <= i < |l|
      ensures l[i] == r[i]
    {
      if i < |hs| {
      } else if i < |hs| + 4 {
      } else if i < |hs| + 4 + |ms| {
        assert l[i] == ms[i - |hs| - 4];
      } else {
      }
    }
  }

  /** Zero hours falls through to the minutes branch. */
  lemma FormatDurationZero()
    ensures FormatDuration(0) == "0 min"
  {
    assert Joined("0", ' ', "min") == "0 min";
  }

  lemma ReadMinutes(m: nat)
    ensures ReadDuration(Joined(NatToString(m), ' ', "min")) == Some(m * 60)
  {
    SplitAfterNumeral(NatToString(m), ' ', "min");
    ParseNatToString(m);
  }

  lemma ReadHours(h: nat)
    ensures ReadDuration(Joined(NatToString(h), ' ', "hr")) == Some(h * 3600)
  {
    SplitAfterNumeral(NatToString(h), ' ', "hr");
    ParseNatToString(h);
  }

  /** The leading number is read off and the rest goes on to ReadUnit. */
  lemma ReadLeadingNumber(n: nat, rest: string)
    ensures ReadDuration(Joined(NatToString(n), ' ', rest)) == ReadUnit(n, rest)
  {
    SplitAfterNumeral(NatToString(n), ' ', rest);
    ParseNatToString(n);
  }

  /** After "hr " the trailing minutes are read. */
  lemma ReadHoursUnit(n: nat, tail: string)
    ensures ReadUnit(n, Joined("hr", ' ', tail)) == ReadTrailingMinutes(n, tail)
  {
    var unit := Joined("hr", ' ', tail);
    assert unit[0] == 'h' && unit[2] == ' ';
    assert unit != "min" && unit != "hr";
    SplitAtJoin("hr", ' ', tail);
  }

  lemma ReadMinutesAfterHours(h: nat, m: nat, total: nat)
    requires total == h * 3600 + m * 60
    ensures ReadTrailingMinutes(h, Joined(NatToString(m), ' ', "min")) == Some(total)
  {
    SplitAfterNumeral(NatToString(m), ' ', "min");
    ParseNatToString(m);
  }

  lemma ReadHoursMinutes(h: nat, m: nat, total: nat)
    requires total == h * 3600 + m * 60
    ensures ReadDuration(Joined(NatToString(h), ' ', Joined("hr", ' ', Joined(NatToString(m), ' ', "min")))) == Some(total)
  {
    var tail := Joined(NatToString(m), ' ', "min");
    ReadLeadingNumber(h, Joined("hr", ' ', tail));
    ReadHoursUnit(h, tail);
    ReadMinutesAfterHours(h, m, total);
  }

  lemma RoundTripBothParts(seconds: int)
    requires seconds >= 0 && seconds % 60 == 0 && seconds / 3600 > 0 && (seconds / 60) % 60 > 0
    ensures ReadDuration(FormatDuration(seconds)) == Some(seconds)
  {
    var h, m := seconds / 3600, (seconds / 60) % 60;
    DurationParts(seconds);
    DurationText(seconds);
    ReadHoursMinutes(h, m, seconds);
  }

  lemma RoundTripWholeHours(seconds: int)
    requires seconds >= 0 && seconds % 60 == 0 && seconds / 3600 > 0 && (seconds / 60) % 60 == 0
    ensures ReadDuration(FormatDuration(seconds)) == Some(seconds)
  {
    DurationParts(seconds);
    DurationText(seconds);
    ReadHours(seconds / 3600);
  }

  lemma RoundTripUnderAnHour(seconds: int)
    requires seconds >= 0 && seconds % 60 == 0 && seconds / 3600 == 0
    ensures ReadDuration(FormatDuration(seconds)) == Some(seconds)
  {
    DurationParts(seconds);
    DurationText(seconds);
    ReadMinutes((seconds / 60) % 60);
  }

  /** Reading the text back gives the number of seconds formatted. */
  lemma FormatDurationRoundTrip(seconds: int)
    requires seconds >= 0 && seconds % 60 == 0
    ensures ReadDuration(FormatDuration(seconds)) == Some(seconds)
  {
    if seconds / 3600 > 0 && (seconds / 60) % 60 > 0 {
      RoundTripBothParts(seconds);
    } else if seconds / 3600 > 0 {
      RoundTripWholeHours(seconds);
    } else {
      RoundTripUnderAnHour(seconds);
    }
  }

  // ---------------------------------------------------------------------------
  // formatDateTimeLocal

  /**
   * The fields a Date's local getters give: month is 0-based as getMonth()
   * returns it; none of month, day, hours and minutes is ever negative.
   */
  datatype DateParts = DateParts(year: int, month: nat, day: nat, hours: nat, minutes: nat) {
    /** The ranges the getters keep to. */
    predicate InRange() {
      month <= 11 && 1 <= day <= 31 && hours <= 23 && minutes <= 59
    }
  }

  /**
   * formatDateTimeLocal: `${year}-${month}-${day}T${hours}:${minutes}`, the
   * month shifted to 1-based, the month, day, hours and minutes padded to two
   * digits, the year as it is.
   */
  function FormatDateTimeLocal(d: DateParts): string
  {
    DateTimeText(IntToString(d.year), Pad2(d.month + 1), Pad2(d.day), Pad2(d.hours), Pad2(d.minutes))
  }

  /** The year, month, day, hours and minutes texts laid out as year-month-dayThours:minutes. */
  function DateTimeText(y: string, mo: string, dd: string, h: string, mi: string): string {
    Joined(y, '-', Joined(mo, '-', Joined(dd, 'T', Joined(h, ':', mi))))
  }

  /** Reads a datetime-local value back into its fields, the month back to 0-based. */
  function ReadDateTimeLocal(t: string): Option<DateParts> {
    match ReadNumbers(t, "--T:")
    case None => None
    case Some(ns) => DateOf(ns)
  }

  /** Year, 1-based month, day, hours and minutes, as the date they name. */
  function DateOf(ns: seq<nat>): Option<DateParts> {
    if |ns| == 5 && ns[1] >= 1 then Some(DateParts(ns[0], ns[1] - 1, ns[2], ns[3], ns[4])) else None
  }

  /** Fields of the right widths, all digits, give the shape yyyy-mm-ddThh:mm. */
  lemma FieldsFit(y: string, mo: string, dd: string, h: string, mi: string)
    requires Fits(y, "####") && Fits(mo, "##") && Fits(dd, "##") && Fits(h, "##") && Fits(mi, "##")
    ensures Fits(DateTimeText(y, mo, dd, h, mi), "####-##-##T##:##")
  {
    var r3 := Joined(h, ':', mi);
    var r2 := Joined(dd, 'T', r3);
    var r1 := Joined(mo, '-', r2);
    ClockFits(h, mi);
    DayFits(dd, r3);
    MonthFits(mo, r2);
    YearFits(y, r1);
  }

  lemma DayFits(dd: string, rest: string)
    requires Fits(dd, "##") && Fits(rest, "##:##")
    ensures Fits(Joined(dd, 'T', rest), "##T##:##")
  {
    FitsJoined(dd, "##", 'T', rest, "##:##");
    assert Joined("##", 'T', "##:##") == "##T##:##";
  }

  lemma MonthFits(mo: string, rest: string)
    requires Fits(mo, "##") && Fits(rest, "##T##:##")
    ensures Fits(Joined(mo, '-', rest), "##-##T##:##")
  {
    FitsJoined(mo, "##", '-', rest, "##T##:##");
    assert Joined("##", '-', "##T##:##") == "##-##T##:##";
  }

  lemma YearFits(y: string, rest: string)
    requires Fits(y, "####") && Fits(rest, "##-##T##:##")
    ensures Fits(Joined(y, '-', rest), "####-##-##T##:##")
  {
    FitsJoined(y, "####", '-', rest, "##-##T##:##");
    assert Joined("####", '-', "##-##T##:##") == "####-##-##T##:##";
  }

  /** With a four-digit year the value has the shape yyyy-mm-ddThh:mm, every field digits. */
  lemma FormatDateTimeLocalLayout(d: DateParts)
    requires d.InRange() && 1000 <= d.year <= 9999
    ensures Fits(FormatDateTimeLocal(d), "####-##-##T##:##")
  {
    FourDigitsFit(d.year);
    Pad2Fits(d.month + 1);
    Pad2Fits(d.day);
    Pad2Fits(d.hours);
    Pad2Fits(d.minutes);
    FieldsFit(IntToString(d.year), Pad2(d.month + 1), Pad2(d.day), Pad2(d.hours), Pad2(d.minutes));
  }

  /** Five numerals joined by '-', '-', 'T' and ':' are read off as their five numbers. */
  lemma ReadFiveNumbers(y: string, mo: string, dd: string, h: string, mi: string, ny: nat, nmo: nat, ndd: nat, nh: nat, nmi: nat)
    requires IsNumeral(y) && ParseNat(y) == ny && IsNumeral(mo) && ParseNat(mo) == nmo
    requires IsNumeral(dd) && ParseNat(dd) == ndd && IsNumeral(h) && ParseNat(h) == nh
    requires IsNumeral(mi) && ParseNat(mi) == nmi
    ensures ReadNumbers(DateTimeText(y, mo, dd, h, mi), "--T:")
      == Some([ny] + ([nmo] + ([ndd] + ([nh] + [nmi]))))
  {
    var s0 := "--T:";
    var s1, s2, s3 := s0[1..], s0[2..], s0[3..];
    assert s0[0] == '-' && s1[0] == '-' && s2[0] == 'T' && s3[0] == ':';
    assert s1 == s0[1..] && s2 == s1[1..] && s3 == s2[1..] && s3[1..] == "";
    var r3 := Joined(h, ':', mi);
    var r2 := Joined(dd, 'T', r3);
    var r1 := Joined(mo, '-', r2);
    assert ReadNumbers(mi, "") == Some([nmi]);
    ReadNumbersStep(h, nh, ':', mi, s3, [nmi]);
    ReadNumbersStep(dd, ndd, 'T', r3, s2, [nh] + [nmi]);
    ReadNumbersStep(mo, nmo, '-', r2, s1, [ndd] + ([nh] + [nmi]));
    ReadNumbersStep(y, ny, '-', r1, s0, [nmo] + ([ndd] + ([nh] + [nmi])));
  }

  /** The texts formatDateTimeLocal builds from five numbers read back as those numbers. */
  lemma ReadFieldNumbers(y: nat, mo: nat, dd: nat, h: nat, mi: nat)
    ensures ReadNumbers(DateTimeText(IntToString(y), Pad2(mo), Pad2(dd), Pad2(h), Pad2(mi)), "--T:")
      == Some([y] + ([mo] + ([dd] + ([h] + [mi]))))
  {
    ParseYear(y);
    ParsePad2(mo);
    ParsePad2(dd);
    ParsePad2(h);
    ParsePad2(mi);
    ReadFiveNumbers(IntToString(y), Pad2(mo), Pad2(dd), Pad2(h), Pad2(mi), y, mo, dd, h, mi);
  }

  /** Five numbers name the date with those fields, the month shifted back to 0-based. */
  lemma DateOfFive(y: nat, mo: nat, dd: nat, h: nat, mi: nat)
    requires mo >= 1
    ensures DateOf([y] + ([mo] + ([dd] + ([h] + [mi])))) == Some(DateParts(y, mo - 1, dd, h, mi))
  {
    var ns := [y] + ([mo] + ([dd] + ([h] + [mi])));
    assert ns[0] == y && ns[1] == mo && ns[2] == dd && ns[3] == h && ns[4] == mi;
  }

  /** A year from 0 on is written as a numeral that reads back as the year. */
  lemma ParseYear(year: int)
    requires year >= 0
    ensures IsNumeral(IntToString(year)) && ParseNat(IntToString(year)) == year
  {
    ParseNatToString(year);
  }

  /** Reading the value back gives the date's fields, for any year from 0 on. */
  lemma FormatDateTimeLocalRoundTrip(d: DateParts)
    requires d.year >= 0
    ensures ReadDateTimeLocal(FormatDateTimeLocal(d)) == Some(d)
  {
    ReadFields(d.year, d.month, d.day, d.hours, d.minutes);
  }

  /** The text built from a year, a 0-based month, a day, hours and minutes reads back as that date. */
  lemma ReadFields(y: nat, mo: nat, dd: nat, h: nat, mi: nat)
    ensures ReadDateTimeLocal(DateTimeText(IntToString(y), Pad2(mo + 1), Pad2(dd), Pad2(h), Pad2(mi)))
      == Some(DateParts(y, mo, dd, h, mi))
  {
    ReadFieldNumbers(y, mo + 1, dd, h, mi);
    DateOfFive(y, mo + 1, dd, h, mi);
  }
}
