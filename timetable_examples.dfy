/** Character facts about a sample timetable line, kept apart from the
    scanners that read it. The line is written as its code, name and
    time-and-location parts joined together. */
module SampleLine {
  import opened Text

  lemma LinePieces(s: string)
    requires s == "SOE 322 " + "Software Quality Engineering" + " 10:00-12:00 NHA1"
    ensures |s| == 53 && s[..8] == "SOE 322 " && s[8..36] == "Software Quality Engineering"
    ensures s[36..] == " 10:00-12:00 NHA1"
  {
  }

  lemma CodeChars(s: string)
    requires |s| >= 8 && s[..8] == "SOE 322 "
    ensures s[0] == 'S' && s[1] == 'O' && s[2] == 'E' && s[3] == ' '
    ensures s[4] == '3' && s[5] == '2' && s[6] == '2' && s[7] == ' '
  {
    var c := s[..8];
    assert c[0] == s[0] && c[1] == s[1] && c[2] == s[2] && c[3] == s[3];
    assert c[4] == s[4] && c[5] == s[5] && c[6] == s[6] && c[7] == s[7];
  }

  lemma NameWords(s: string)
    requires |s| >= 36 && s[8..36] == "Software Quality Engineering"
    ensures forall i :: 8 <= i < 36 ==> IsLetter(s[i]) || IsSpace(s[i])
    ensures IsLetter(s[8]) && IsLetter(s[35])
  {
    var n := s[8..36];
    assert forall k :: 0 <= k < 28 ==> IsLetter(n[k]) || IsSpace(n[k]);
    assert IsLetter(n[0]) && IsLetter(n[27]);
    forall i | 8 <= i < 36
      ensures IsLetter(s[i]) || IsSpace(s[i])
    {
      assert s[i] == n[i - 8];
    }
  }

  lemma RangeChars(s: string)
    requires |s| == 53 && s[36..] == " 10:00-12:00 NHA1"
    ensures s[36] == ' ' && s[37] == '1' && s[38] == '0' && s[39] == ':' && s[40] == '0' && s[41] == '0'
    ensures s[42] == '-' && s[43] == '1' && s[44] == '2' && s[45] == ':' && s[46] == '0' && s[47] == '0'
  {
    var t := s[36..];
    assert t[0] == s[36] && t[1] == s[37] && t[2] == s[38] && t[3] == s[39] && t[4] == s[40] && t[5] == s[41];
    assert t[6] == s[42] && t[7] == s[43] && t[8] == s[44] && t[9] == s[45] && t[10] == s[46] && t[11] == s[47];
  }

  lemma HallChars(s: string)
    requires |s| == 53 && s[36..] == " 10:00-12:00 NHA1"
    ensures s[48] == ' ' && s[49] == 'N' && s[50] == 'H' && s[51] == 'A' && s[52] == '1'
  {
    var t := s[36..];
    assert t[12] == s[48] && t[13] == s[49] && t[14] == s[50] && t[15] == s[51] && t[16] == s[52];
  }
}

/** The detailed pattern on a sample line: a code, a three-word name, a
    range of two bare clocks and a hall give one row. */
module TimetableExamples {
  import opened Text
  import opened TimeRanges
  import opened Scan
  import opened Timetable
  import TimeExamples
  import SampleLine

  /** The code `SOE 322` starts the line and ends before the white space
      at 7. */
  lemma LineCode(s: string)
    requires |s| == 53
    requires s[0] == 'S' && s[1] == 'O' && s[2] == 'E' && s[3] == ' '
    requires s[4] == '3' && s[5] == '2' && s[6] == '2' && s[7] == ' '
    ensures CodeAt(s, 0, IsLetter, false) == Some(7)
    ensures CleanCode(s[0..7]) == "SOE 322"
  {
    assert forall c :: IsLetter(c) ==> !IsSpace(c);
    forall i | 0 <= i < 3
      ensures IsLetter(s[i])
    {
      assert i == 0 || i == 1 || i == 2;
    }
    forall i | 4 <= i < 7
      ensures IsDigit(s[i])
    {
      assert i == 4 || i == 5 || i == 6;
    }
    CodeAtExact(s, 0, 3, 4, 7, IsLetter, false);
    var dept, gap, num := s[0..3], s[3..4], s[4..7];
    assert s[0..7] == dept + gap + num;
    assert dept == [s[0], s[1], s[2]] && gap == [s[3]] && num == [s[4], s[5], s[6]];
    CleanJoin(dept, gap, num);
  }

  /** The time group after the name: one space at 36, then the range
      `10:00-12:00` from 37 to 48. */
  lemma LineTime(s: string)
    requires |s| == 53 && s[48] == ' '
    requires s[36] == ' ' && s[37] == '1' && s[38] == '0' && s[39] == ':' && s[40] == '0' && s[41] == '0'
    requires s[42] == '-' && s[43] == '1' && s[44] == '2' && s[45] == ':' && s[46] == '0' && s[47] == '0'
    ensures TimeAfter(s, 36) == Some((37, 48, DashRange(s, 37)))
    ensures DashRange(s, 37) == TimeExamples.BothBareRange()
  {
    RangeAtDash(s, 37);
    SpanExact(s, 36, IsSpace, 1);
  }

  /** The lazy name from 8 stops at 36, the first point from which white
      space and a time range follow. */
  lemma LineName(s: string)
    requires |s| == 53 && TimeFollows(s, 36)
    requires forall i :: 8 <= i < 36 ==> IsLetter(s[i]) || IsSpace(s[i])
    requires IsLetter(s[35])
    ensures NameEnd(s, 8) == Some(36)
  {
    LazyNameOverWords(s, 8, 9, 36);
  }

  /** The location group after the range: one space at 48, then `NHA1`
      to the end of the line. */
  lemma LineHall(s: string)
    requires |s| == 53 && s[48] == ' ' && s[49] == 'N' && s[50] == 'H' && s[51] == 'A' && s[52] == '1'
    ensures LocationAt(s, 48) == Some((53, s[49..53]))
    ensures Trim(s[49..53]) == "NHA1"
  {
    forall i | 49 <= i < 53
      ensures IsLocChar(s[i])
    {
      assert i == 49 || i == 50 || i == 51 || i == 52;
    }
    LocationExact(s, 48, 53);
    assert s[49..53] == [s[49], s[50], s[51], s[52]];
    TrimNoOp("NHA1");
  }

  /** A line the detailed pattern matches once, from its start to its end,
      yields exactly that match. */
  lemma OneDetailedRow(s: string, r: Row)
    requires DetailedAt(s, 0) == Some((|s|, r))
    ensures LineRows(s) == [r]
  {
    DetailedAdvancing();
    MatchesWhole(s, DetailedAt, r);
  }

  /** What the scanners find in the code and the name of the sample. */
  predicate CodeName(s: string) {
    && |s| == 53 && CodeAt(s, 0, IsLetter, false) == Some(7) && CleanCode(s[0..7]) == "SOE 322"
    && IsSpace(s[7]) && NamePart(s)
  }

  predicate NamePart(s: string) {
    |s| == 53 && !IsSpace(s[8]) && IsNameChar(s[8]) && Trim(s[8..36]) == s[8..36] && NameEnd(s, 8) == Some(36)
  }

  /** What the scanners find in the time range and the hall of the sample. */
  predicate TimeHall(s: string) {
    && |s| == 53 && TimeAfter(s, 36) == Some((37, 48, DashRange(s, 37)))
    && Canonical(DashRange(s, 37)) == "10:00 AM - 12:00 PM"
    && LocationAt(s, 48) == Some((53, s[49..53])) && Trim(s[49..53]) == "NHA1"
  }

  lemma LineCodeName(s: string)
    requires |s| == 53 && s[..8] == "SOE 322 " && s[8..36] == "Software Quality Engineering"
    requires TimeFollows(s, 36)
    ensures CodeName(s)
  {
    SampleLine.CodeChars(s);
    SampleLine.NameWords(s);
    LineCode(s);
    LineNamePart(s);
  }

  lemma LineNamePart(s: string)
    requires |s| == 53 && TimeFollows(s, 36)
    requires forall i :: 8 <= i < 36 ==> IsLetter(s[i]) || IsSpace(s[i])
    requires IsLetter(s[8]) && IsLetter(s[35])
    ensures NamePart(s)
  {
    NameTrim(s);
    LineName(s);
  }

  lemma NameTrim(s: string)
    requires |s| == 53 && IsLetter(s[8]) && IsLetter(s[35])
    ensures !IsSpace(s[8]) && IsNameChar(s[8]) && Trim(s[8..36]) == s[8..36]
  {
    var n := s[8..36];
    assert n[0] == s[8] && n[27] == s[35];
    TrimNoOp(n);
  }

  lemma LineTimeHall(s: string)
    requires |s| == 53 && s[36..] == " 10:00-12:00 NHA1"
    ensures TimeHall(s)
  {
    SampleLine.RangeChars(s);
    SampleLine.HallChars(s);
    LineTime(s);
    LineHall(s);
    TimeExamples.BothBareCanonical();
  }

  /** The detailed match those parts make. */
  lemma LineMatch(s: string)
    requires CodeName(s) && TimeHall(s)
    ensures DetailedAt(s, 0) == Some((53, Row("SOE 322", s[8..36], "10:00 AM - 12:00 PM", "NHA1")))
  {
    DetailedAtExact(s, 0, 7, 8, 36, 37, 48, DashRange(s, 37), 53, s[49..53]);
  }

  /** The sample line, given by its three parts, is one detailed match. */
  lemma LineSample(s: string)
    requires |s| == 53 && s[..8] == "SOE 322 " && s[8..36] == "Software Quality Engineering"
    requires s[36..] == " 10:00-12:00 NHA1"
    ensures DetailedAt(s, 0) == Some((53, Row("SOE 322", s[8..36], "10:00 AM - 12:00 PM", "NHA1")))
  {
    LineTimeHall(s);
    LineCodeName(s);
    LineMatch(s);
  }

  /** A line with a code, a name, a time range and a hall gives one
      detailed row: the code as written, the name trimmed, the time in
      canonical form and the hall. */
  lemma DetailedLine()
    ensures LineRows("SOE 322 " + "Software Quality Engineering" + " 10:00-12:00 NHA1")
            == [Row("SOE 322", "Software Quality Engineering", "10:00 AM - 12:00 PM", "NHA1")]
  {
    var s := "SOE 322 " + "Software Quality Engineering" + " 10:00-12:00 NHA1";
    SampleLine.LinePieces(s);
    LineSample(s);
    OneDetailedRow(s, Row("SOE 322", s[8..36], "10:00 AM - 12:00 PM", "NHA1"));
  }
}
