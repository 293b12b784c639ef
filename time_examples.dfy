/** Worked examples of the time normaliser and the sort key, each derived
    from the general lemmas about captured ranges. */
module TimeExamples {
  import opened Text
  import opened Time
  import opened TimeRanges

  lemma ShortDecimal(s: string)
    requires 1 <= |s| <= 2 && AllDigits(s)
    ensures DecimalValue(s) == if |s| == 1 then DigitValue(s[0]) else 10 * DigitValue(s[0]) + DigitValue(s[1])
  {
    assert s[..|s| - 1][..0] == [];
    if |s| == 2 { assert s[..1][0] == s[0]; }
  }

  /** A range whose text is `raw` and whose canonical text is `out`
      normalises `raw` to `out`. */
  lemma NormalizeExample(r: RawRange, raw: string, out: string)
    requires r.Valid() && r.Text() == raw && Canonical(r) == out
    ensures NormalizeTime(raw) == Some(out)
  {
    NormalizeRange(r);
  }

  function BothBareRange(): RawRange {
    RawRange(RawClock("10", "00", ""), "", "-", "", RawClock("12", "00", ""))
  }

  lemma BothBareRecords()
    ensures BothBareRange().Valid()
    ensures Record(BothBareRange().start, None) == Clock(Num(10), "00", AM, Num(10))
    ensures Record(BothBareRange().end, Some(Clock(Num(10), "00", AM, Num(10)))) == Clock(Num(12), "00", PM, Num(12))
  {
    ShortDecimal("10");
    ShortDecimal("12");
  }

  lemma BothBareText()
    ensures BothBareRange().Text() == "10:00-12:00"
  {
  }

  lemma BothBareCanonical()
    ensures BothBareRange().Valid() && Canonical(BothBareRange()) == "10:00 AM - 12:00 PM"
  {
    BothBareRecords();
    assert Full(Clock(Num(10), "00", AM, Num(10))) == "10:00 AM";
    assert Full(Clock(Num(12), "00", PM, Num(12))) == "12:00 PM";
  }

  /** A range with both meridiems omitted: the start infers AM from the
      7-11 rule and the end, 12, becomes PM. */
  lemma NormalizeBothBare()
    ensures NormalizeTime("10:00-12:00") == Some("10:00 AM - 12:00 PM")
  {
    BothBareCanonical();
    BothBareText();
    NormalizeExample(BothBareRange(), "10:00-12:00", "10:00 AM - 12:00 PM");
  }

  function BareEndAfterAfternoonRange(): RawRange {
    RawRange(RawClock("2", "00", "pm"), "", "-", "", RawClock("4", "00", ""))
  }

  lemma BareEndAfterAfternoonRecords()
    ensures BareEndAfterAfternoonRange().Valid()
    ensures Record(BareEndAfterAfternoonRange().start, None) == Clock(Num(2), "00", PM, Num(14))
    ensures Record(BareEndAfterAfternoonRange().end, Some(Clock(Num(2), "00", PM, Num(14)))) == Clock(Num(4), "00", AM, Num(4))
  {
    ShortDecimal("2");
    ShortDecimal("4");
  }

  lemma BareEndAfterAfternoonText()
    ensures BareEndAfterAfternoonRange().Text() == "2:00pm-4:00"
  {
  }

  lemma BareEndAfterAfternoonCanonical()
    ensures BareEndAfterAfternoonRange().Valid() && Canonical(BareEndAfterAfternoonRange()) == "2:00 PM - 4:00 AM"
  {
    BareEndAfterAfternoonRecords();
    assert Full(Clock(Num(2), "00", PM, Num(14))) == "2:00 PM";
    assert Full(Clock(Num(4), "00", AM, Num(4))) == "4:00 AM";
  }

  /** An explicit PM start followed by a bare 4 below its 24-hour hour 14:
      the end rule flips the end to AM. */
  lemma NormalizeBareEndAfterAfternoon()
    ensures NormalizeTime("2:00pm-4:00") == Some("2:00 PM - 4:00 AM")
  {
    BareEndAfterAfternoonCanonical();
    BareEndAfterAfternoonText();
    NormalizeExample(BareEndAfterAfternoonRange(), "2:00pm-4:00", "2:00 PM - 4:00 AM");
  }

  function MarkedToRange(): RawRange {
    RawRange(RawClock("9", "30", "AM"), " ", "to", " ", RawClock("11", "00", "AM"))
  }

  lemma MarkedToRecords()
    ensures MarkedToRange().Valid()
    ensures Record(MarkedToRange().start, None) == Clock(Num(9), "30", AM, Num(9))
    ensures Record(MarkedToRange().end, Some(Clock(Num(9), "30", AM, Num(9)))) == Clock(Num(11), "00", AM, Num(11))
  {
    ShortDecimal("9");
    ShortDecimal("11");
  }

  lemma MarkedToText()
    ensures MarkedToRange().Text() == "9:30AM to 11:00AM"
  {
  }

  lemma MarkedToCanonical()
    ensures MarkedToRange().Valid() && Canonical(MarkedToRange()) == "9:30 AM - 11:00 AM"
  {
    MarkedToRecords();
    assert Full(Clock(Num(9), "30", AM, Num(9))) == "9:30 AM";
    assert Full(Clock(Num(11), "00", AM, Num(11))) == "11:00 AM";
  }

  /** Explicit markers in upper case around a `to` separator. */
  lemma NormalizeMarkedTo()
    ensures NormalizeTime("9:30AM to 11:00AM") == Some("9:30 AM - 11:00 AM")
  {
    MarkedToCanonical();
    MarkedToText();
    NormalizeExample(MarkedToRange(), "9:30AM to 11:00AM", "9:30 AM - 11:00 AM");
  }

  function NoonStartRange(): RawRange {
    RawRange(RawClock("12", "00", ""), "", "-", "", RawClock("2", "00", ""))
  }

  lemma NoonStartRecords()
    ensures NoonStartRange().Valid()
    ensures Record(NoonStartRange().start, None) == Clock(Num(12), "00", PM, Num(12))
    ensures Record(NoonStartRange().end, Some(Clock(Num(12), "00", PM, Num(12)))) == Clock(Num(2), "00", AM, Num(2))
  {
    ShortDecimal("12");
    ShortDecimal("2");
  }

  lemma NoonStartText()
    ensures NoonStartRange().Text() == "12:00-2:00"
  {
  }

  lemma NoonStartCanonical()
    ensures NoonStartRange().Valid() && Canonical(NoonStartRange()) == "12:00 PM - 2:00 AM"
  {
    NoonStartRecords();
    assert Full(Clock(Num(12), "00", PM, Num(12))) == "12:00 PM";
    assert Full(Clock(Num(2), "00", AM, Num(2))) == "2:00 AM";
  }

  /** A bare 12 start is PM, and a bare end of 2 lies below its 24-hour
      hour 12, so the end rule makes it AM. */
  lemma NormalizeNoonStart()
    ensures NormalizeTime("12:00-2:00") == Some("12:00 PM - 2:00 AM")
  {
    NoonStartCanonical();
    NoonStartText();
    NormalizeExample(NoonStartRange(), "12:00-2:00", "12:00 PM - 2:00 AM");
  }

  function MidnightStartRange(): RawRange {
    RawRange(RawClock("12", "00", "am"), "", "-", "", RawClock("3", "00", ""))
  }

  lemma MidnightStartRecords()
    ensures MidnightStartRange().Valid()
    ensures Record(MidnightStartRange().start, None) == Clock(Num(12), "00", AM, Num(0))
    ensures Record(MidnightStartRange().end, Some(Clock(Num(12), "00", AM, Num(0)))) == Clock(Num(3), "00", AM, Num(3))
  {
    ShortDecimal("12");
    ShortDecimal("3");
  }

  lemma MidnightStartText()
    ensures MidnightStartRange().Text() == "12:00am-3:00"
  {
  }

  lemma MidnightStartCanonical()
    ensures MidnightStartRange().Valid() && Canonical(MidnightStartRange()) == "12:00 AM - 3:00 AM"
  {
    MidnightStartRecords();
    assert Full(Clock(Num(12), "00", AM, Num(0))) == "12:00 AM";
    assert Full(Clock(Num(3), "00", AM, Num(3))) == "3:00 AM";
  }

  /** After a 12 AM start, whose 24-hour hour 0 is falsy, a bare end keeps
      AM unless it is 12. */
  lemma NormalizeMidnightStart()
    ensures NormalizeTime("12:00am-3:00") == Some("12:00 AM - 3:00 AM")
  {
    MidnightStartCanonical();
    MidnightStartText();
    NormalizeExample(MidnightStartRange(), "12:00am-3:00", "12:00 AM - 3:00 AM");
  }

  function LoneMRange(): RawRange {
    RawRange(RawClock("10", "00", "m"), "", "-", "", RawClock("12", "00", ""))
  }

  function LoneMStart(): Clock { Clock(Num(10), "00m", AM, Num(10)) }

  lemma LoneMRecords()
    ensures LoneMRange().Valid()
    ensures Record(LoneMRange().start, None) == LoneMStart()
    ensures Record(LoneMRange().end, Some(LoneMStart())) == Clock(Num(12), "00", PM, Num(12))
  {
    ShortDecimal("10");
    ShortDecimal("12");
  }

  lemma LoneMText()
    ensures LoneMRange().Text() == "10:00m-12:00"
  {
  }

  lemma LoneMCanonical()
    ensures LoneMRange().Valid() && Canonical(LoneMRange()) == "10:00m AM - 12:00 PM"
  {
    LoneMRecords();
    assert Full(LoneMStart()) == "10:00m AM";
    assert Full(Clock(Num(12), "00", PM, Num(12))) == "12:00 PM";
  }

  /** A start clock with a lone `m`: no marker letter is found, so the `m`
      stays behind the minute and the output leaves the `H:MM AM` form. */
  lemma NormalizeLoneM()
    ensures NormalizeTime("10:00m-12:00") == Some("10:00m AM - 12:00 PM")
  {
    LoneMCanonical();
    LoneMText();
    NormalizeExample(LoneMRange(), "10:00m-12:00", "10:00m AM - 12:00 PM");
  }

  /** That output has no clock followed by `AM` or `PM` before its `-`, so
      it sorts as minute 0 rather than 600. */
  lemma SortKeyLoneM()
    ensures StartMinutes("10:00m AM - 12:00 PM") == 0
  {
    assert Full(LoneMStart()) + " - " + Full(Clock(Num(12), "00", PM, Num(12))) == "10:00m AM - 12:00 PM";
    StartMinutesLoneM(LoneMStart(), Clock(Num(12), "00", PM, Num(12)));
  }

  function Midnight(): Clock { Clock(Num(12), "00", AM, Num(0)) }
  function OneAm(): Clock { Clock(Num(1), "00", AM, Num(1)) }
  function Noon(): Clock { Clock(Num(12), "00", PM, Num(12)) }
  function OnePm(): Clock { Clock(Num(1), "00", PM, Num(13)) }
  function HalfPastNoon(): Clock { Clock(Num(12), "30", PM, Num(12)) }

  lemma MidnightRangeText()
    ensures Full(Midnight()) + " - " + Full(OneAm()) == "12:00 AM - 1:00 AM"
  {
    assert Full(Midnight()) == "12:00 AM";
    assert Full(OneAm()) == "1:00 AM";
  }

  lemma NoonRangeText()
    ensures Full(Noon()) + " - " + Full(OnePm()) == "12:00 PM - 1:00 PM"
  {
    assert Full(Noon()) == "12:00 PM";
    assert Full(OnePm()) == "1:00 PM";
  }

  lemma HalfPastNoonText()
    ensures Full(HalfPastNoon()) == "12:30 PM"
  {
    assert NatToString(12) == "12";
  }

  /** A printed range whose start is `a` sorts by the start's minute of the
      day. */
  lemma SortKeyExample(a: Clock, b: Clock, text: string, key: int)
    requires KeyedClock(a) && CanonicalClock(b) && Full(a) + " - " + Full(b) == text
    requires Hour24(a.hour, a.ampm).v * 60 + DecimalValue(a.minute) == key
    ensures StartMinutes(text) == key
  {
    StartMinutesOfRange(a, b);
  }

  /** The sort key of 12 AM is 0. */
  lemma SortKeyMidnight()
    ensures StartMinutes("12:00 AM - 1:00 AM") == 0
  {
    MidnightRangeText();
    ShortDecimal("00");
    SortKeyExample(Midnight(), OneAm(), "12:00 AM - 1:00 AM", 0);
  }

  /** The sort key of 12 PM is 720. */
  lemma SortKeyNoon()
    ensures StartMinutes("12:00 PM - 1:00 PM") == 720
  {
    NoonRangeText();
    ShortDecimal("00");
    SortKeyExample(Noon(), OnePm(), "12:00 PM - 1:00 PM", 720);
  }

  /** A single clock: 12:30 PM is minute 750 of the day. */
  lemma SortKeyHalfPastNoon()
    ensures StartMinutes("12:30 PM") == 750
  {
    HalfPastNoonText();
    StartMinutesOfClock(HalfPastNoon());
    ShortDecimal("30");
  }

  /** Text with no clock time sorts first. */
  lemma SortKeyUnparsable()
    ensures StartMinutes("TBA") == 0
  {
    SplitNone("TBA", '-');
    assert Trim("TBA") == "TBA";
  }
}
