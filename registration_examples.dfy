/** Character facts about the sample listings, stated apart from the
    scanners that read them. */
module SampleListings {
  import opened Text

  /** The listing "1 CSC 201 Intro\n2 CSC 205 Data" starts with its first
      row, */
  lemma NumberedFirstRow(s: string)
    requires s == "1 CSC 201 Intro\n2 CSC 205 Data"
    ensures |s| == 30 && s[..9] == "1 CSC 201"
  {
  }

  /** its second row starts at 16, */
  lemma NumberedSecondRow(s: string)
    requires s == "1 CSC 201 Intro\n2 CSC 205 Data"
    ensures s[16..][..9] == "2 CSC 205"
  {
    assert s[16..] == "2 CSC 205 Data";
  }

  /** and the stretches without digits after each of them. */
  lemma NumberedGaps(s: string)
    requires s == "1 CSC 201 Intro\n2 CSC 205 Data"
    ensures forall i :: 9 <= i < 16 ==> !IsDigit(s[i])
    ensures forall i :: 25 <= i < 30 ==> !IsDigit(s[i])
  {
  }

}

/** The fallback path of `processCourses` on two spellings of one code. */
module RegistrationExamples {
  import opened Text
  import SampleListings
  import opened Scan
  import opened Registration

  /** The two raw matches differ, so deduplication keeps both. */
  lemma RawDistinct()
    ensures Dedup(["CSC 201", "CSC\n201"]) == ["CSC 201", "CSC\n201"]
  {
    var a: string, b: string := "CSC 201", "CSC\n201";
    var one: seq<string> := [a];
    var two: seq<string> := [a, b];
    assert a[3] != b[3];
    assert two[..1] == one;
    assert one[..0] == [];
    assert Dedup(one) == one;
  }

  /** The department "CSC" and the number "201" around a white-space gap. */
  lemma CleanExample(gap: string, raw: string, out: string)
    requires gap != [] && forall i :: 0 <= i < |gap| ==> IsSpace(gap[i])
    requires raw == "CSC" + gap + "201" && out == "CSC" + " " + "201"
    ensures CleanCode(raw) == out
  {
    var dept, num := "CSC", "201";
    assert forall i :: 0 <= i < |dept| ==> !IsSpace(dept[i]);
    assert AllDigits(num);
    CleanJoin(dept, gap, num);
  }

  lemma NewlineGap()
    ensures forall i :: 0 <= i < |"\n"| ==> IsSpace("\n"[i])
  {
    var gap := "\n";
    assert gap[0] == '\n';
  }

  lemma CleanNewline()
    ensures CleanCode("CSC\n201") == "CSC 201"
  {
    NewlineGap();
    CleanExample("\n", "CSC\n201", "CSC 201");
  }

  lemma CleanSpace()
    ensures CleanCode("CSC 201") == "CSC 201"
  {
    CleanExample(" ", "CSC 201", "CSC 201");
  }

  /** When the fallback finds "CSC 201" and then "CSC\n201", the raw
      matches are deduplicated before white space is collapsed, so the
      result lists "CSC 201" twice. */
  lemma FallbackKeepsDuplicates(text: string)
    requires forall q :: 0 <= q <= |text| ==> NumberedAt(text, q).None?
    requires BareMatches(text) == ["CSC 201", "CSC\n201"]
    ensures RegisteredCodes(text) == ["CSC 201", "CSC 201"]
  {
    FallbackResult(text);
    RawDistinct();
    CleanNewline();
    CleanSpace();
  }

  /** The listing "CSC 201, CSC\n201": no digit run in it is followed by
      white space, so no numbered row is found anywhere. */
  lemma MixedNoNumbered(s: string)
    requires s == "CSC 201, CSC\n201"
    ensures forall q :: 0 <= q <= |s| ==> NumberedAt(s, q).None?
  {
    forall q | 0 <= q <= |s| ensures NumberedAt(s, q).None? {
      if 4 <= q < 7 {
        NumberedNoGap(s, q, 7);
      } else if 13 <= q < 16 {
        NumberedNoGap(s, q, 16);
      } else {
        assert q == |s| || !IsDigit(s[q]);
      }
    }
  }

  /** The characters of "CSC 201, CSC\n201" the fallback scan looks at. */
  lemma MixedChars(s: string)
    requires s == "CSC 201, CSC\n201"
    ensures |s| == 16
    ensures forall i :: 0 <= i < 3 ==> IsUpper(s[i])
    ensures forall i :: 9 <= i < 12 ==> IsUpper(s[i])
    ensures IsSpace(s[3]) && IsSpace(s[12])
    ensures forall i :: 4 <= i < 7 ==> IsDigit(s[i])
    ensures forall i :: 13 <= i < 16 ==> IsDigit(s[i])
    ensures !IsDigit(s[7]) && !IsUpper(s[7]) && !IsUpper(s[8])
    ensures s[0..7] == "CSC 201" && s[9..16] == "CSC\n201"
  {
  }

  /** A text laid out as "CSC 201, CSC\n201" yields the two bare matches
      at 0 and at 9. */
  lemma MixedBareMatches(s: string)
    requires |s| == 16
    requires forall i :: 0 <= i < 3 ==> IsUpper(s[i])
    requires forall i :: 9 <= i < 12 ==> IsUpper(s[i])
    requires IsSpace(s[3]) && IsSpace(s[12])
    requires forall i :: 4 <= i < 7 ==> IsDigit(s[i])
    requires forall i :: 13 <= i < 16 ==> IsDigit(s[i])
    requires !IsDigit(s[7]) && !IsUpper(s[7]) && !IsUpper(s[8])
    ensures BareMatches(s) == [s[0..7], s[9..16]]
  {
    BareAdvancing();
    BareAtExact(s, 0, 3, 7);
    BareAtExact(s, 9, 12, 16);
    assert BareAt(s, 7).None? && BareAt(s, 8).None?;
    MatchesNext(s, 0, 0, BareAt);
    MatchesNext(s, 7, 9, BareAt);
    MatchesEmpty(s, 16, BareAt);
  }

  /** `processCourses("CSC 201, CSC\n201")` lists "CSC 201" twice. */
  lemma MixedListing()
    ensures RegisteredCodes("CSC 201, CSC\n201") == ["CSC 201", "CSC 201"]
  {
    var s := "CSC 201, CSC\n201";
    MixedNoNumbered(s);
    MixedChars(s);
    MixedBareMatches(s);
    FallbackKeepsDuplicates(s);
  }

  /** A row number of one digit, one space, a three-letter department,
      one space and a three-digit number at `p` form a numbered row. */
  lemma NumberedAtRow(s: string, p: nat)
    requires p + 9 <= |s|
    requires IsDigit(s[p]) && IsSpace(s[p + 1]) && IsSpace(s[p + 5])
    requires IsUpper(s[p + 2]) && IsUpper(s[p + 3]) && IsUpper(s[p + 4])
    requires IsDigit(s[p + 6]) && IsDigit(s[p + 7]) && IsDigit(s[p + 8])
    requires p + 9 == |s| || !IsDigit(s[p + 9])
    ensures NumberedAt(s, p) == Some((p + 9, [s[p + 2], s[p + 3], s[p + 4], ' ', s[p + 6], s[p + 7], s[p + 8]]))
  {
    NumberedAtExact(s, p, p + 1, p + 2, p + 5, p + 6, p + 9);
    CodeDisplay(s, p + 2, p + 6);
  }

  /** A three-letter department and a three-digit number, joined by one
      space, character by character. */
  lemma CodeDisplay(s: string, q: nat, d: nat)
    requires q + 3 <= d && d + 3 <= |s|
    ensures s[q..q + 3] + " " + s[d..d + 3] == [s[q], s[q + 1], s[q + 2], ' ', s[d], s[d + 1], s[d + 2]]
  {
    var c := s[q..q + 3] + " " + s[d..d + 3];
    var x := [s[q], s[q + 1], s[q + 2], ' ', s[d], s[d + 1], s[d + 2]];
    forall j | 0 <= j < 7 ensures c[j] == x[j] {
      if j < 3 {
        assert c[j] == s[q + j];
      } else if j > 3 {
        assert c[j] == s[d + j - 4];
      }
    }
  }

  /** The characters of the rows "1 CSC 201" at 0 and "2 CSC 205" at 16. */
  lemma FirstRowChars(s: string)
    requires |s| >= 9 && s[..9] == "1 CSC 201"
    ensures s[0] == '1' && s[1] == ' ' && s[2] == 'C' && s[3] == 'S' && s[4] == 'C'
    ensures s[5] == ' ' && s[6] == '2' && s[7] == '0' && s[8] == '1'
  {
    assert s[..9][6] == s[6];
  }

  lemma SecondRowChars(s: string)
    requires |s| >= 25 && s[16..][..9] == "2 CSC 205"
    ensures s[16] == '2' && s[17] == ' ' && s[18] == 'C' && s[19] == 'S' && s[20] == 'C'
    ensures s[21] == ' ' && s[22] == '2' && s[23] == '0' && s[24] == '5'
  {
    assert s[16..][..9][6] == s[22];
  }

  /** A text of 30 characters with numbered rows at 0 and at 16 and no digit
      elsewhere yields the codes of those two rows. */
  lemma NumberedRows(s: string)
    requires |s| == 30
    requires IsDigit(s[0]) && IsSpace(s[1]) && IsSpace(s[5])
    requires IsUpper(s[2]) && IsUpper(s[3]) && IsUpper(s[4])
    requires IsDigit(s[6]) && IsDigit(s[7]) && IsDigit(s[8])
    requires IsDigit(s[16]) && IsSpace(s[17]) && IsSpace(s[21])
    requires IsUpper(s[18]) && IsUpper(s[19]) && IsUpper(s[20])
    requires IsDigit(s[22]) && IsDigit(s[23]) && IsDigit(s[24])
    requires forall i :: 9 <= i < 16 ==> !IsDigit(s[i])
    requires forall i :: 25 <= i < 30 ==> !IsDigit(s[i])
    ensures NumberedCodes(s) == [[s[2], s[3], s[4], ' ', s[6], s[7], s[8]], [s[18], s[19], s[20], ' ', s[22], s[23], s[24]]]
  {
    NumberedAdvancing();
    NumberedAtRow(s, 0);
    MatchesNext(s, 0, 0, NumberedAt);
    NumberedSecond(s);
  }

  /** After the first row, the search finds the second row and nothing
      after it. */
  lemma NumberedSecond(s: string)
    requires |s| == 30
    requires IsDigit(s[16]) && IsSpace(s[17]) && IsSpace(s[21])
    requires IsUpper(s[18]) && IsUpper(s[19]) && IsUpper(s[20])
    requires IsDigit(s[22]) && IsDigit(s[23]) && IsDigit(s[24])
    requires forall i :: 9 <= i < 16 ==> !IsDigit(s[i])
    requires forall i :: 25 <= i < 30 ==> !IsDigit(s[i])
    requires Advancing(NumberedAt)
    ensures Matches(s, 9, NumberedAt) == [[s[18], s[19], s[20], ' ', s[22], s[23], s[24]]]
  {
    NumberedAtRow(s, 16);
    NumberedNoDigits(s, 9, 16);
    NumberedNoDigits(s, 25, 30);
    MatchesNext(s, 9, 16, NumberedAt);
    MatchesEmpty(s, 25, NumberedAt);
  }

  /** Two different codes are kept as they are. */
  lemma DedupTwo(a: string, b: string)
    requires a != b
    ensures Dedup([a, b]) == [a, b]
  {
    var one, two := [a], [a, b];
    assert one[..0] == [] && one[0] == a;
    assert Dedup(one) == [a];
    assert two[..1] == one && two[1] == b;
    assert b !in Dedup(one);
  }

  /** `processCourses("1 CSC 201 Intro\n2 CSC 205 Data")` finds both
      numbered rows and returns their codes in order. */
  lemma NumberedListing()
    ensures RegisteredCodes("1 CSC 201 Intro\n2 CSC 205 Data") == ["CSC 201", "CSC 205"]
  {
    var s := "1 CSC 201 Intro\n2 CSC 205 Data";
    SampleListings.NumberedFirstRow(s);
    SampleListings.NumberedSecondRow(s);
    FirstRowChars(s);
    SecondRowChars(s);
    SampleListings.NumberedGaps(s);
    NumberedRows(s);
    var a, b := "CSC 201", "CSC 205";
    assert a[6] != b[6];
    DedupTwo(a, b);
  }
}
