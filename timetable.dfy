/** `processTimetable` (script.js:67-121): the timetable text is cut into
    lines; a line starting with a day name sets the day in effect, and each
    non-blank line is scanned with the detailed pattern (code, name, time
    range, optional location) and, only when that finds nothing, with the
    simple pattern (code, optional `Lec N`, time range). */
module Timetable {
  import opened Text
  import opened Time
  import opened TimeRanges
  import opened Scan
  import opened LineFold

  /** One timetable entry, as pushed by `processTimetable`. */
  datatype Entry = Entry(day: string, code: string, name: string, time: string, hall: string)

  /** The fields one match contributes; the day comes from the line context. */
  datatype Row = Row(code: string, name: string, time: string, hall: string)

  const DayNames: seq<string> := ["MONDAY", "TUESDAY", "WEDNESDAY", "THURSDAY", "FRIDAY", "SATURDAY", "SUNDAY"]

  /** The day before any day heading. */
  const UnknownDay: string := "Unknown"

  /** The name the simple pattern gives its entries. */
  const NoDetails: string := "Details N/A"

  /** The hall of an entry without a location. */
  const NoHall: string := "N/A"

  function Stamp(day: string, r: Row): Entry {
    Entry(day, r.code, r.name, r.time, r.hall)
  }

  function StampAll(day: string, rows: seq<Row>): (es: seq<Entry>)
    ensures |es| == |rows|
    ensures forall i :: 0 <= i < |rows| ==> es[i] == Stamp(day, rows[i])
  {
    seq(|rows|, i requires 0 <= i < |rows| => Stamp(day, rows[i]))
  }

  /** A time text `normalizeTime` leaves as it is. */
  predicate Fixed(t: string) {
    NormalizeTime(t) == Some(t)
  }

  // -------------------------------------------------- character classes

  /** `[A-Za-z0-9\s\(\)\-.:]`. */
  predicate IsNameChar(c: char) {
    IsLetter(c) || IsDigit(c) || IsSpace(c) || c in "()-.:"
  }

  /** `[A-Za-z0-9\s\(\)\/-]`. */
  predicate IsLocChar(c: char) {
    IsLetter(c) || IsDigit(c) || IsSpace(c) || c in "()/-"
  }

  // ---------------------------------------------------- the two patterns

  /** `\s+` at `e` followed by the time range: time start, end and range. */
  function TimeAfter(s: string, e: nat): (r: Option<(nat, nat, RawRange)>)
    ensures r.Some? ==> e < r.value.0 < r.value.1 <= |s| && RangeAt(s, r.value.0) == Some((r.value.1, r.value.2))
  {
    if e >= |s| || !IsSpace(s[e]) then None
    else
      var t := e + Span(s, e, IsSpace);
      match RangeAt(s, t)
      case None => None
      case Some((te, rr)) => Some((t, te, rr))
  }

  /** `\s+` and a time range follow at `e`. */
  predicate TimeFollows(s: string, e: nat) {
    TimeAfter(s, e).Some?
  }

  /** A time range starts at `p`. */
  predicate RangeStarts(s: string, p: nat) {
    RangeAt(s, p).Some?
  }

  /** The lazy name `[...]+?`: the least end from `e` on, over name
      characters, from which `follows` holds; the detailed pattern passes
      "white space and a time range follow". */
  function LazyName(s: string, e: nat, follows: nat -> bool): (r: Option<nat>)
    requires e <= |s|
    ensures r.Some? ==> e <= r.value <= |s| && follows(r.value)
    ensures r.Some? ==> forall i :: e <= i < r.value ==> IsNameChar(s[i])
    decreases |s| - e
  {
    if follows(e) then Some(e)
    else if e < |s| && IsNameChar(s[e]) then LazyName(s, e + 1, follows)
    else None
  }

  /** The lazy name is the shortest: from no earlier end does `follows`
      hold. */
  lemma {:induction false} LazyNameShortest(s: string, e: nat, follows: nat -> bool)
    requires e <= |s| && LazyName(s, e, follows).Some?
    ensures forall i :: e <= i < LazyName(s, e, follows).value ==> !follows(i)
    decreases |s| - e
  {
    if !follows(e) {
      LazyNameShortest(s, e + 1, follows);
    }
  }

  /** Completeness of the lazy name: an end `k` reached over name
      characters, with `follows` holding at `k` and at no earlier end, is
      the end the lazy name takes. */
  lemma {:induction false} LazyNameExact(s: string, e: nat, follows: nat -> bool, k: nat)
    requires e <= k <= |s| && follows(k)
    requires forall i :: e <= i < k ==> !follows(i) && IsNameChar(s[i])
    ensures LazyName(s, e, follows) == Some(k)
    decreases k - e
  {
    if e < k {
      LazyNameExact(s, e + 1, follows, k);
    }
  }

  /** No time range follows inside a run of letters and white space that
      ends in a letter: every white-space run in it is followed by a letter,
      where no clock can start. */
  lemma NoTimeInWords(s: string, a: nat, b: nat)
    requires a < b <= |s| && !IsSpace(s[b - 1])
    requires forall i :: a <= i < b ==> IsLetter(s[i]) || IsSpace(s[i])
    ensures forall i :: a <= i < b ==> !TimeFollows(s, i)
  {
    forall i | a <= i < b
      ensures !TimeFollows(s, i)
    {
      if i < |s| && IsSpace(s[i]) {
        var t := i + Span(s, i, IsSpace);
        assert t < b - 1 || t == b - 1 || t > b - 1;
        assert !IsDigit(s[t]);
      }
    }
  }

  /** Over a run of letters and white space ending in a letter, the lazy
      name of the detailed pattern runs to the end of the run when a time
      range follows there. */
  lemma LazyNameOverWords(s: string, a: nat, n1: nat, k: nat)
    requires a < n1 <= k <= |s| && !IsSpace(s[k - 1]) && TimeFollows(s, k)
    requires forall i :: a <= i < k ==> IsLetter(s[i]) || IsSpace(s[i])
    ensures LazyName(s, n1, Follows(s)) == Some(k)
  {
    NoTimeInWords(s, a, k);
    forall i | n1 <= i < k
      ensures !Follows(s)(i) && IsNameChar(s[i])
    {
      assert !TimeFollows(s, i) && (IsLetter(s[i]) || IsSpace(s[i]));
    }
    LazyNameExact(s, n1, Follows(s), k);
  }

  /** `(?:\s+([A-Za-z0-9\s\(\)\/-]+))?` after the time range ending at `te`:
      the end of the match and the location text. White space followed by
      a location character gives the longest run of location characters;
      otherwise a run of two or more white-space characters gives back its
      last one as a one-character location; otherwise the group is absent. */
  function LocationAt(s: string, te: nat): (r: Option<(nat, string)>)
    requires te <= |s|
    ensures r.Some? ==> te < r.value.0 <= |s|
  {
    var w := Span(s, te, IsSpace);
    var l := te + w;
    if w >= 1 && l < |s| && IsLocChar(s[l]) then
      var k := Span(s, l, IsLocChar);
      Some((l + k, s[l..l + k]))
    else if w >= 2 then Some((l, s[l - 1..l]))
    else None
  }

  /** Completeness of the location group: one white-space character at
      `te`, then location characters up to `e`, give the location
      `s[te + 1..e]`. */
  lemma LocationExact(s: string, te: nat, e: nat)
    requires te + 1 < e <= |s| && IsSpace(s[te]) && !IsSpace(s[te + 1])
    requires forall i :: te + 1 <= i < e ==> IsLocChar(s[i])
    requires e == |s| || !IsLocChar(s[e])
    ensures LocationAt(s, te) == Some((e, s[te + 1..e]))
  {
    SpanExact(s, te, IsSpace, 1);
    SpanExact(s, te + 1, IsLocChar, e - te - 1);
  }

  /** The entry fields of a detailed match: code `s[p..c]`, name
      `s[ns..ne]`, time range at `t`. */
  function DetailedRow(s: string, p: nat, c: nat, ns: nat, ne: nat, t: nat): (r: (nat, Row))
    requires p < c <= ns <= ne <= t <= |s| && RangeStarts(s, t)
    requires Trim(s[ns..ne]) != NoDetails
    ensures p < r.0 <= |s|
    ensures IsDetailed(r.1) && r.1.code == CleanCode(s[p..c])
  {
    var (te, rr) := RangeAt(s, t).value;
    NormalizeCapture(s, t);
    NormalizeIdempotent(rr);
    var time := NormalizeTime(Trim(s[t..te])).value;
    match LocationAt(s, te)
    case None => (te, Row(CleanCode(s[p..c]), Trim(s[ns..ne]), time, NoHall))
    case Some((e, loc)) => (e, Row(CleanCode(s[p..c]), Trim(s[ns..ne]), time, Trim(loc)))
  }

  /** A detailed entry's time is the canonical text of the captured range,
      and its hall is "N/A" when no location group follows the range. */
  lemma DetailedRowFields(s: string, p: nat, c: nat, ns: nat, ne: nat, t: nat)
    requires p < c <= ns <= ne <= t <= |s| && RangeStarts(s, t)
    requires Trim(s[ns..ne]) != NoDetails
    ensures DetailedRow(s, p, c, ns, ne, t).1.time == Canonical(RangeAt(s, t).value.1)
    ensures LocationAt(s, RangeAt(s, t).value.0).None? ==> DetailedRow(s, p, c, ns, ne, t).1.hall == NoHall
  {
    NormalizeCapture(s, t);
  }

  /** An entry the detailed pattern produced: its name is not the simple
      pattern's, and its time is in canonical form. */
  predicate IsDetailed(r: Row) {
    r.name != NoDetails && Fixed(r.time)
  }

  /** An entry the simple pattern produced. */
  predicate IsSimple(r: Row) {
    r.name == NoDetails && r.hall == NoHall && Fixed(r.time)
  }

  /** A name of name characters is never the sentinel, which holds `/`. */
  lemma NotNoDetails(s: string, a: nat, b: nat)
    requires a <= b <= |s| && forall i :: a <= i < b ==> IsNameChar(s[i])
    ensures Trim(s[a..b]) != NoDetails
  {
    var x := s[a..b];
    assert forall i :: 0 <= i < |x| ==> x[i] == s[a + i];
    assert '/' in NoDetails by { assert NoDetails[9] == '/'; }
    assert '/' !in x by {
      forall i | 0 <= i < |x| ensures x[i] != '/' {
      }
    }
  }

  /** A one-character white-space name trims to the empty string. */
  lemma BlankIsNotNoDetails(s: string, k: nat, e: nat)
    requires e == k + 1 <= |s| && IsSpace(s[k])
    ensures Trim(s[k..e]) != NoDetails
  {
    var x := s[k..e];
    assert x[0] == s[k];
    TrimEmptyIffBlank(x);
  }

  /** The detailed pattern
      `CODE\s+([A-Za-z0-9\s\(\)\-.:]+?)\s+(TIME)(?:\s+(LOCATION))?` with the
      `i` flag, tried at `p`. The name normally starts after the white space
      that follows the code; when no name fits there, backtracking can only
      succeed by giving back white space: with three or more white-space
      characters before a time range the name is the third-last of them and
      the time range starts right after the run. */
  function DetailedAt(s: string, p: nat): (r: Option<(nat, Row)>)
    ensures r.Some? ==> p < r.value.0 <= |s| && IsDetailed(r.value.1)
  {
    match CodeAt(s, p, IsLetter, false)
    case None => None
    case Some(c) => DetailedAfterCode(s, p, c)
  }

  /** The rest of the detailed pattern after the code `s[p..c]`. */
  function DetailedAfterCode(s: string, p: nat, c: nat): (r: Option<(nat, Row)>)
    requires p < c <= |s|
    ensures r.Some? ==> p < r.value.0 <= |s| && IsDetailed(r.value.1)
    ensures r.Some? ==> r.value.1.code == CleanCode(s[p..c])
  {
    var w := Span(s, c, IsSpace);
    var n0 := NameStart(s, c);
    var lazy := if w > 0 && n0 < |s| && IsNameChar(s[n0]) then NameEnd(s, n0) else None;
    match lazy
    case Some(e) =>
      NameChars(s, n0);
      NamedRow(s, p, c, n0, e)
    case None =>
      if w >= 3 && RangeStarts(s, n0) then
        assert IsSpace(s[n0 - 2]) by { SpanAt(s, c, n0 - 2 - c); }
        BlankNamedRow(s, p, c, n0)
      else None
  }

  /** Completeness of the detailed pattern for a line whose code is
      followed by one white-space character and a name that starts with a
      non-space character: the match is the named row the lazy name, the
      time range and the location give. */
  lemma DetailedAtExact(s: string, p: nat, c: nat, n0: nat, e: nat, t: nat, te: nat, rr: RawRange, z: nat, loc: string)
    requires p < c && n0 == c + 1 && n0 < e <= |s| && IsSpace(s[c]) && !IsSpace(s[n0]) && IsNameChar(s[n0])
    requires CodeAt(s, p, IsLetter, false) == Some(c)
    requires NameEnd(s, n0) == Some(e)
    requires TimeAfter(s, e) == Some((t, te, rr))
    requires LocationAt(s, te) == Some((z, loc))
    ensures DetailedAt(s, p) == Some((z, Row(CleanCode(s[p..c]), Trim(s[n0..e]), Canonical(rr), Trim(loc))))
  {
    AfterCodeNamed(s, p, c, n0, e);
    NamedRowExact(s, p, c, n0, e, t, te, rr, z, loc);
  }

  lemma AfterCodeNamed(s: string, p: nat, c: nat, n0: nat, e: nat)
    requires p < c && n0 == c + 1 && n0 < |s| && IsSpace(s[c]) && !IsSpace(s[n0]) && IsNameChar(s[n0])
    requires NameEnd(s, n0) == Some(e)
    ensures n0 < e <= |s| && TimeFollows(s, e) && forall i :: n0 <= i < e ==> IsNameChar(s[i])
    ensures DetailedAfterCode(s, p, c) == NamedRow(s, p, c, n0, e)
  {
    OneSpaceNameStart(s, c, n0);
    NameChars(s, n0);
  }

  lemma OneSpaceNameStart(s: string, c: nat, n0: nat)
    requires n0 == c + 1 && n0 < |s| && IsSpace(s[c]) && !IsSpace(s[n0])
    ensures Span(s, c, IsSpace) == 1 && NameStart(s, c) == n0
  {
    SpanExact(s, c, IsSpace, 1);
  }

  lemma NamedRowExact(s: string, p: nat, c: nat, n0: nat, e: nat, t: nat, te: nat, rr: RawRange, z: nat, loc: string)
    requires p < c <= n0 <= e <= |s| && TimeFollows(s, e)
    requires forall i :: n0 <= i < e ==> IsNameChar(s[i])
    requires TimeAfter(s, e) == Some((t, te, rr))
    requires LocationAt(s, te) == Some((z, loc))
    ensures NamedRow(s, p, c, n0, e) == Some((z, Row(CleanCode(s[p..c]), Trim(s[n0..e]), Canonical(rr), Trim(loc))))
  {
    NotNoDetails(s, n0, e);
    DetailedRowFields(s, p, c, n0, e, t);
  }

  /** Where the name starts: after the white space that follows the code. */
  function NameStart(s: string, c: nat): (n0: nat)
    requires c <= |s|
    ensures n0 == c + Span(s, c, IsSpace)
  {
    c + Span(s, c, IsSpace)
  }

  /** The lazy name's end when the name starts at `n0`. */
  function NameEnd(s: string, n0: nat): Option<nat>
    requires n0 < |s|
  {
    LazyName(s, n0 + 1, Follows(s))
  }

  /** "White space and a time range follow", as the lazy name's stop test. */
  function Follows(s: string): nat -> bool {
    (i: nat) => TimeFollows(s, i)
  }

  lemma NameChars(s: string, n0: nat)
    requires n0 < |s| && IsNameChar(s[n0]) && NameEnd(s, n0).Some?
    ensures var e := NameEnd(s, n0).value;
            n0 < e && TimeFollows(s, e) && forall i :: n0 <= i < e ==> IsNameChar(s[i])
  {
  }

  lemma SpanAt(s: string, c: nat, i: nat)
    requires c <= |s| && i < Span(s, c, IsSpace)
    ensures IsSpace(s[c + i])
  {
  }

  /** A match whose name is `s[n0..e]`. */
  function NamedRow(s: string, p: nat, c: nat, n0: nat, e: nat): (r: Option<(nat, Row)>)
    requires p < c <= n0 <= e <= |s| && TimeFollows(s, e)
    requires forall i :: n0 <= i < e ==> IsNameChar(s[i])
    ensures r.Some? ==> p < r.value.0 <= |s| && IsDetailed(r.value.1)
    ensures r.Some? ==> r.value.1.code == CleanCode(s[p..c])
  {
    var (t, _, _) := TimeAfter(s, e).value;
    NotNoDetails(s, n0, e);
    Some(DetailedRow(s, p, c, n0, e, t))
  }

  /** A match whose name is the white-space character two before `n0`, the
      time range starting at `n0`. */
  function BlankNamedRow(s: string, p: nat, c: nat, n0: nat): (r: Option<(nat, Row)>)
    requires p < c && c + 3 <= n0 <= |s| && RangeStarts(s, n0)
    requires IsSpace(s[n0 - 2])
    ensures r.Some? ==> p < r.value.0 <= |s| && IsDetailed(r.value.1)
    ensures r.Some? ==> r.value.1.code == CleanCode(s[p..c])
  {
    BlankIsNotNoDetails(s, n0 - 2, n0 - 1);
    Some(DetailedRow(s, p, c, n0 - 2, n0 - 1, n0))
  }

  /** `Lec\s\d+\s` with the `i` flag at `g`: the end of the group. */
  function LecAt(s: string, g: nat): (r: Option<nat>)
    ensures r.Some? ==> g < r.value <= |s|
  {
    if g + 4 > |s| || s[g] !in "lL" || s[g + 1] !in "eE" || s[g + 2] !in "cC" || !IsSpace(s[g + 3]) then None
    else
      var n := Span(s, g + 4, IsDigit);
      if n == 0 || g + 4 + n >= |s| || !IsSpace(s[g + 4 + n]) then None
      else Some(g + 5 + n)
  }

  /** The simple pattern `CODE\s+(?:Lec\s\d+\s)?(TIME)` with the `i` flag,
      tried at `p`. The name and hall are the fixed sentinels. */
  function SimpleAt(s: string, p: nat): (r: Option<(nat, Row)>)
    ensures r.Some? ==> p < r.value.0 <= |s| && IsSimple(r.value.1)
  {
    match CodeAt(s, p, IsLetter, false)
    case None => None
    case Some(c) =>
      var w := Span(s, c, IsSpace);
      if w == 0 then None
      else
        var g := c + w;
        var t := match LecAt(s, g) case Some(l) => l case None => g;
        match RangeAt(s, t)
        case None => None
        case Some((te, rr)) =>
          NormalizeCapture(s, t);
          NormalizeIdempotent(rr);
          Some((te, Row(CleanCode(s[p..c]), NoDetails, NormalizeTime(Trim(s[t..te])).value, NoHall)))
  }

  lemma DetailedAdvancing()
    ensures Advancing(DetailedAt)
  {
  }

  lemma SimpleAdvancing()
    ensures Advancing(SimpleAt)
  {
  }

  // ------------------------------------------------------------ one line

  /** The first day name a line starts with, after trimming and
      upper-casing, as the `for ... break` loop finds it. */
  function Heading(line: string): Option<string> {
    FirstDayFrom(Upper(Trim(line)), 0)
  }

  function FirstDayFrom(upper: string, j: nat): (r: Option<string>)
    requires j <= |DayNames|
    ensures r.Some? ==> r.value in DayNames[j..] && StartsWith(upper, r.value)
    ensures r.None? ==> forall k :: j <= k < |DayNames| ==> !StartsWith(upper, DayNames[k])
    decreases |DayNames| - j
  {
    if j == |DayNames| then None
    else if StartsWith(upper, DayNames[j]) then Some(DayNames[j])
    else FirstDayFrom(upper, j + 1)
  }

  /** A blank line names no day. */
  lemma BlankNoHeading(line: string)
    requires Trim(line) == []
    ensures Heading(line).None?
  {
    assert Upper(Trim(line)) == [];
    NoDayStartsEmpty(0);
  }

  lemma {:induction false} NoDayStartsEmpty(j: nat)
    requires j <= |DayNames|
    ensures FirstDayFrom([], j).None?
    decreases |DayNames| - j
  {
    if j < |DayNames| {
      assert |DayNames[j]| > 0;
      NoDayStartsEmpty(j + 1);
    }
  }

  /** The rows of one trimmed line: the detailed matches, or the simple ones
      when there are none. */
  function LineRows(trimmed: string): seq<Row> {
    DetailedAdvancing();
    SimpleAdvancing();
    var detailed := Matches(trimmed, 0, DetailedAt);
    if detailed != [] then detailed else Matches(trimmed, 0, SimpleAt)
  }

  /** The entries one line adds when `day` is in effect after it: none for
      a blank line, otherwise its rows stamped with that day. */
  function LineEntries(day: string, line: string): seq<Entry> {
    if Trim(line) == [] then [] else StampAll(day, LineRows(Trim(line)))
  }

  // ----------------------------------------------------- the whole text

  /** The day in effect after `lines` when `day` was in effect before
      them: the day of the last heading among them, or `day` if none. */
  function LatestDay(day: string, lines: seq<string>): string {
    Latest(day, lines, Heading)
  }

  /** The entries of `lines` with `day` in effect before them: line by
      line, the entries of each line under the day in effect after it (so
      a heading applies to its own line too). */
  function EntriesOf(day: string, lines: seq<string>): seq<Entry> {
    Collect(day, lines, Heading, LineEntries)
  }

  /** The entries `processTimetable` returns. */
  function TimetableEntries(text: string): seq<Entry> {
    EntriesOf(UnknownDay, Split(text, '\n'))
  }

  // ---------------------------------------------------------- the method

  /** `processTimetable`: the `forEach` over the lines of the text, with
      the day in effect and the entries so far carried from line to line. */
  method ProcessTimetable(text: string) returns (courses: seq<Entry>)
    ensures courses == EntriesOf(UnknownDay, Split(text, '\n'))
  {
    var lines := Split(text, '\n');
    courses := [];
    var currentDay := UnknownDay;
    var i := 0;
    while i < |lines|
      invariant 0 <= i <= |lines|
      invariant currentDay == LatestDay(UnknownDay, lines[..i])
      invariant courses == EntriesOf(UnknownDay, lines[..i])
    {
      Step(UnknownDay, lines, i, Heading, LineEntries);
      currentDay, courses := ProcessLine(lines[i], currentDay, courses);
      i := i + 1;
    }
    assert lines[..|lines|] == lines;
  }

  /** The body of the `forEach` for one line: the day in effect afterwards
      is the line's heading, if any, and the line's entries are appended
      under it. */
  method ProcessLine(line: string, day: string, courses: seq<Entry>) returns (currentDay: string, out: seq<Entry>)
    ensures currentDay == match Heading(line) case Some(h) => h case None => day
    ensures out == courses + LineEntries(currentDay, line)
  {
    var trimmedLine := Trim(line);
    if trimmedLine == [] {
      BlankNoHeading(line);
      assert courses + [] == courses;
      return day, courses;
    }
    currentDay := FindDay(Upper(trimmedLine), day);
    var rows := ScanLine(trimmedLine);
    out := courses + StampAll(currentDay, rows);
  }

  /** The `for` loop over the day names with its `break`. */
  method FindDay(upperTrimmedLine: string, day: string) returns (currentDay: string)
    ensures currentDay == match FirstDayFrom(upperTrimmedLine, 0) case Some(h) => h case None => day
  {
    currentDay := day;
    var j := 0;
    while j < |DayNames|
      invariant 0 <= j <= |DayNames|
      invariant currentDay == day
      invariant FirstDayFrom(upperTrimmedLine, 0) == FirstDayFrom(upperTrimmedLine, j)
    {
      if StartsWith(upperTrimmedLine, DayNames[j]) {
        currentDay := DayNames[j];
        break;
      }
      j := j + 1;
    }
  }

  /** The two `exec` loops of one line: the simple pattern runs only when
      the detailed one found nothing. */
  method ScanLine(trimmedLine: string) returns (rows: seq<Row>)
    ensures rows == LineRows(trimmedLine)
  {
    DetailedAdvancing();
    SimpleAdvancing();
    rows := ExecAll(trimmedLine, DetailedAt);
    var found := rows != [];
    if !found {
      rows := ExecAll(trimmedLine, SimpleAt);
    }
  }
}
