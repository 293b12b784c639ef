/** The regular-expression machinery the extractor relies on, written as
    deterministic scanners: a matcher tried at one position, the leftmost
    search `RegExp.prototype.exec` performs from `lastIndex`, the list of
    successive matches a global `exec` loop or `String.prototype.match`
    yields, and the pieces the four patterns share (the course code and the
    time range).

    Each scanner takes, at every quantifier, the choice the backtracking
    matcher settles on: a greedy quantifier followed by something its own
    characters cannot start gives nothing back, so the first choice it
    tries is the one that succeeds or the match fails at that position. */
module Scan {
  import opened Text
  import opened Time
  import opened TimeRanges

  // ------------------------------------------------------ search and exec

  /** A matcher `at(s, p)` returns the end of a match starting at `p` and
      the value built from it. The patterns here never match the empty
      string, so every match ends after it starts. */
  ghost predicate Advancing<M(!new)>(at: (string, nat) -> Option<(nat, M)>) {
    forall s: string, p: nat :: at(s, p).Some? ==> p < at(s, p).value.0 <= |s|
  }

  /** The leftmost match starting at or after `p`: start, end and value. */
  function Search<M(!new)>(s: string, p: nat, at: (string, nat) -> Option<(nat, M)>): (r: Option<(nat, nat, M)>)
    requires p <= |s| && Advancing(at)
    ensures r.Some? ==> p <= r.value.0 < r.value.1 <= |s|
    decreases |s| - p
  {
    match at(s, p)
    case Some((e, v)) => Some((p, e, v))
    case None => if p == |s| then None else Search(s, p + 1, at)
  }

  /** What `Search` finds is a match, and nothing matches before it; when it
      finds nothing, nothing matches at all. */
  lemma SearchSpec<M(!new)>(s: string, p: nat, at: (string, nat) -> Option<(nat, M)>)
    requires p <= |s| && Advancing(at)
    ensures var r := Search(s, p, at);
            && (r.Some? ==> at(s, r.value.0) == Some((r.value.1, r.value.2)))
            && (r.Some? ==> forall q :: p <= q < r.value.0 ==> at(s, q).None?)
            && (r.None? ==> forall q :: p <= q <= |s| ==> at(s, q).None?)
    decreases |s| - p
  {
    if at(s, p).None? && p < |s| {
      SearchSpec(s, p + 1, at);
    }
  }

  /** The values of the successive matches a global `exec` loop finds from
      `lastIndex` `p`: each search resumes where the previous match ended. */
  function Matches<M(!new)>(s: string, p: nat, at: (string, nat) -> Option<(nat, M)>): (r: seq<M>)
    requires p <= |s| && Advancing(at)
    decreases |s| - p
  {
    match Search(s, p, at)
    case None => []
    case Some((_, e, v)) => [v] + Matches(s, e, at)
  }

  /** Every value the successive matches yield was built by a match of
      `at` lying at or after `p`. */
  lemma {:induction false} MatchesFrom<M(!new)>(s: string, p: nat, at: (string, nat) -> Option<(nat, M)>, v: M)
    requires p <= |s| && Advancing(at) && v in Matches(s, p, at)
    ensures exists q, e :: p <= q < e <= |s| && at(s, q) == Some((e, v))
    decreases |s| - p
  {
    SearchSpec(s, p, at);
    var (q, e, w) := Search(s, p, at).value;
    if v != w {
      MatchesFrom(s, e, at, v);
    }
  }

  /** The successive matches are empty exactly when the pattern matches
      nowhere at or after `p`. */
  lemma MatchesEmpty<M(!new)>(s: string, p: nat, at: (string, nat) -> Option<(nat, M)>)
    requires p <= |s| && Advancing(at)
    ensures Matches(s, p, at) == [] <==> forall q :: p <= q <= |s| ==> at(s, q).None?
  {
    SearchSpec(s, p, at);
  }

  /** A match at `m`, with nothing matching from `p` up to it, is what the
      search from `p` finds. */
  lemma {:induction false} SearchFinds<M(!new)>(s: string, p: nat, m: nat, at: (string, nat) -> Option<(nat, M)>)
    requires p <= m <= |s| && Advancing(at)
    requires forall q :: p <= q < m ==> at(s, q).None?
    requires at(s, m).Some?
    ensures Search(s, p, at) == Some((m, at(s, m).value.0, at(s, m).value.1))
    decreases m - p
  {
    if p < m {
      SearchFinds(s, p + 1, m, at);
    }
  }

  /** Then the successive matches from `p` begin with that match and go on
      from its end. */
  lemma MatchesNext<M(!new)>(s: string, p: nat, m: nat, at: (string, nat) -> Option<(nat, M)>)
    requires p <= m <= |s| && Advancing(at)
    requires forall q :: p <= q < m ==> at(s, q).None?
    requires at(s, m).Some?
    ensures at(s, m).value.0 <= |s|
    ensures Matches(s, p, at) == [at(s, m).value.1] + Matches(s, at(s, m).value.0, at)
  {
    SearchFinds(s, p, m, at);
  }

  /** A single match covering the whole of `s` is all the successive
      matches yield. */
  lemma MatchesWhole<M(!new)>(s: string, at: (string, nat) -> Option<(nat, M)>, v: M)
    requires Advancing(at) && at(s, 0) == Some((|s|, v))
    ensures Matches(s, 0, at) == [v]
  {
    MatchesNext(s, 0, 0, at);
    MatchesEmpty(s, |s|, at);
  }

  /** The `while ((match = re.exec(s)) !== null)` loop of a global
      pattern: the values of the matches in order. */
  method ExecAll<M(!new)>(s: string, at: (string, nat) -> Option<(nat, M)>) returns (found: seq<M>)
    requires Advancing(at)
    ensures found == Matches(s, 0, at)
  {
    found := [];
    var lastIndex := 0;
    while true
      invariant lastIndex <= |s|
      invariant found + Matches(s, lastIndex, at) == Matches(s, 0, at)
      decreases |s| - lastIndex
    {
      var m := Search(s, lastIndex, at);
      if m.None? {
        break;
      }
      var (_, end, v) := m.value;
      found := found + [v];
      lastIndex := end;
    }
  }

  // ------------------------------------------------------------ the code

  /** Course code `[A-Z]{3,4}(?:\/[A-Z]{3,4})?` then white space then
      `\d{3,4}`, at `p`; `letter` is the letter class (both cases under the
      `i` flag), `manySpaces` selects `\s+` over a single `\s`. A letter run
      of five or more cannot match at its start (neither four nor three
      letters is followed by `/` or white space); a `/` after the letters
      commits to the second run. Of a longer digit run four are taken.
      Returns the end of the code. */
  function CodeAt(s: string, p: nat, letter: char -> bool, manySpaces: bool): (r: Option<nat>)
    ensures r.Some? ==> p + 7 <= r.value <= |s| && letter(s[p]) && IsDigit(s[r.value - 1])
    ensures r.Some? ==> forall i :: p <= i < r.value ==> CodeChar(s[i], letter)
  {
    match LettersAt(s, p, letter)
    case None => None
    case Some(b) => DigitsAfter(s, b, manySpaces)
  }

  /** A character a code may contain. */
  predicate CodeChar(c: char, letter: char -> bool) {
    letter(c) || c == '/' || IsSpace(c) || IsDigit(c)
  }

  /** The letter part `[A-Z]{3,4}(?:\/[A-Z]{3,4})?` at `p`: its end. */
  function LettersAt(s: string, p: nat, letter: char -> bool): (r: Option<nat>)
    ensures r.Some? ==> p + 3 <= r.value <= |s| && letter(s[p])
    ensures r.Some? ==> forall i :: p <= i < r.value ==> letter(s[i]) || s[i] == '/'
  {
    if p > |s| then None
    else
      var k := Span(s, p, letter);
      if k < 3 || k > 4 then None
      else
        var a := p + k;
        if a < |s| && s[a] == '/' then
          var k2 := Span(s, a + 1, letter);
          if 3 <= k2 <= 4 then Some(a + 1 + k2) else None
        else Some(a)
  }

  /** The white space and `\d{3,4}` after the letters ending at `b`: the
      end of the code. */
  function DigitsAfter(s: string, b: nat, manySpaces: bool): (r: Option<nat>)
    requires b <= |s|
    ensures r.Some? ==> b + 4 <= r.value <= |s| && IsDigit(s[r.value - 1])
    ensures r.Some? ==> forall i :: b <= i < r.value ==> IsSpace(s[i]) || IsDigit(s[i])
  {
    var w := Span(s, b, IsSpace);
    if w == 0 then None
    else
      var d := if manySpaces then b + w else b + 1;
      var n := Span(s, d, IsDigit);
      if n < 3 then None else Some(d + if n > 4 then 4 else n)
  }

  /** A word of three or four letters of the class at `p`, white space up
      to `d` (one character under `\s`, the whole run under `\s+`) and a
      run of three or four digits ending at `e` form a code ending at
      `e`. */
  lemma CodeAtExact(s: string, p: nat, b: nat, d: nat, e: nat, letter: char -> bool, manySpaces: bool)
    requires forall c :: letter(c) ==> !IsSpace(c)
    requires p + 3 <= b <= p + 4 && b < d && d + 3 <= e <= d + 4 && e <= |s|
    requires forall i :: p <= i < b ==> letter(s[i])
    requires forall i :: b <= i < d ==> IsSpace(s[i])
    requires if manySpaces then !IsSpace(s[d]) else d == b + 1
    requires forall i :: d <= i < e ==> IsDigit(s[i])
    requires e == |s| || !IsDigit(s[e])
    ensures CodeAt(s, p, letter, manySpaces) == Some(e)
  {
    LettersAtWord(s, p, b, letter);
    DigitsAfterExact(s, b, d, e, manySpaces);
  }

  lemma LettersAtWord(s: string, p: nat, b: nat, letter: char -> bool)
    requires p + 3 <= b <= p + 4 && b < |s| && IsSpace(s[b])
    requires forall c :: letter(c) ==> !IsSpace(c)
    requires forall i :: p <= i < b ==> letter(s[i])
    ensures LettersAt(s, p, letter) == Some(b)
  {
    SpanExact(s, p, letter, b - p);
  }

  lemma DigitsAfterExact(s: string, b: nat, d: nat, e: nat, manySpaces: bool)
    requires b < d && d + 3 <= e <= d + 4 && e <= |s|
    requires forall i :: b <= i < d ==> IsSpace(s[i])
    requires if manySpaces then !IsSpace(s[d]) else d == b + 1
    requires forall i :: d <= i < e ==> IsDigit(s[i])
    requires e == |s| || !IsDigit(s[e])
    ensures DigitsAfter(s, b, manySpaces) == Some(e)
  {
    if manySpaces {
      SpanExact(s, b, IsSpace, d - b);
    }
    SpanExact(s, d, IsDigit, e - d);
  }

  /** A code text consists of letters of the class, `/`, white space and
      digits; it starts with a letter and ends with a digit. */
  predicate CodeChars(c: string, letter: char -> bool) {
    c != [] && letter(c[0]) && IsDigit(c[|c| - 1]) &&
    forall i :: 0 <= i < |c| ==> CodeChar(c[i], letter)
  }

  lemma CodeAtChars(s: string, p: nat, letter: char -> bool, manySpaces: bool)
    requires CodeAt(s, p, letter, manySpaces).Some?
    ensures CodeChars(s[p..CodeAt(s, p, letter, manySpaces).value], letter)
  {
    var e := CodeAt(s, p, letter, manySpaces).value;
    var c := s[p..e];
    assert forall i :: 0 <= i < |c| ==> c[i] == s[p + i];
  }

  /** `code.replace(/\s+/g, ' ').trim()`: the clean form of a code text. */
  function CleanCode(c: string): string {
    Trim(CollapseSpaces(c))
  }

  /** `[A-Z]{3,4}` over the letter class. */
  predicate Word(w: string, letter: char -> bool) {
    3 <= |w| <= 4 && forall i :: 0 <= i < |w| ==> letter(w[i])
  }

  /** A department: one word, or two joined by `/`. */
  predicate Dept(d: string, letter: char -> bool) {
    Word(d, letter) || exists i :: 0 <= i < |d| && d[i] == '/' && Word(d[..i], letter) && Word(d[i + 1..], letter)
  }

  /** A canonical course code: department, one space, three or four
      digits. */
  predicate CanonicalCode(c: string, letter: char -> bool) {
    exists k :: 0 <= k < |c| && c[k] == ' ' && Dept(c[..k], letter) &&
                3 <= |c[k + 1..]| <= 4 && AllDigits(c[k + 1..])
  }

  /** The letter part found at `p` is a department. */
  lemma LettersDept(s: string, p: nat, letter: char -> bool)
    requires LettersAt(s, p, letter).Some?
    ensures Dept(s[p..LettersAt(s, p, letter).value], letter)
    ensures forall i :: p <= i < LettersAt(s, p, letter).value ==> !IsSpace(s[i]) || letter(s[i])
  {
    var b := LettersAt(s, p, letter).value;
    var d := s[p..b];
    var k := Span(s, p, letter);
    if p + k < |s| && s[p + k] == '/' {
      assert d[k] == '/';
      assert d[..k] == s[p..p + k];
      assert d[k + 1..] == s[p + k + 1..b];
    } else {
      assert b == p + k;
    }
  }

  /** Department, a white-space run and digits clean to the department,
      one space and the digits. */
  lemma CleanJoin(dept: string, gap: string, num: string)
    requires dept != [] && forall i :: 0 <= i < |dept| ==> !IsSpace(dept[i])
    requires gap != [] && forall i :: 0 <= i < |gap| ==> IsSpace(gap[i])
    requires num != [] && AllDigits(num)
    ensures CleanCode(dept + gap + num) == dept + " " + num
  {
    var rest := gap + num;
    assert dept + gap + num == dept + rest;
    CollapseAppendNoSpace(dept, rest);
    assert !IsSpace(num[0]);
    CollapseSpaceRun(gap, num);
    CollapseNoSpace(num);
    var c := dept + " " + num;
    assert CollapseSpaces(dept + rest) == c;
    assert !IsSpace(c[0]) && !IsSpace(c[|c| - 1]);
    TrimNoOp(c);
  }

  lemma JoinCanonical(dept: string, num: string, letter: char -> bool)
    requires Dept(dept, letter) && 3 <= |num| <= 4 && AllDigits(num)
    ensures CanonicalCode(dept + " " + num, letter)
  {
    var c := dept + " " + num;
    var k := |dept|;
    assert c[k] == ' ' && c[..k] == dept && c[k + 1..] == num;
  }

  /** Where the white space after the letters ends: after the whole run
      under `\s+`, after one character under `\s`. */
  function GapEnd(s: string, b: nat, manySpaces: bool): nat
    requires b <= |s|
  {
    if manySpaces then b + Span(s, b, IsSpace) else b + 1
  }

  lemma DigitsPieces(s: string, b: nat, manySpaces: bool)
    requires b <= |s| && DigitsAfter(s, b, manySpaces).Some?
    ensures var e := DigitsAfter(s, b, manySpaces).value;
            var d := GapEnd(s, b, manySpaces);
            b < d && d + 3 <= e <= d + 4 &&
            (forall i :: b <= i < d ==> IsSpace(s[i])) &&
            (forall i :: d <= i < e ==> IsDigit(s[i]))
  {
  }

  lemma SliceParts(s: string, a: nat, b: nat, c: nat, d: nat)
    requires a <= b <= c <= d <= |s|
    ensures s[a..d] == s[a..b] + s[b..c] + s[c..d]
  {
    assert s[a..d] == s[a..b] + s[b..d];
    assert s[b..d] == s[b..c] + s[c..d];
  }

  /** Cleaning the text of a code found at `p` gives a canonical code:
      the white space between the department and the number collapses to
      one space. Letters are never white space. */
  lemma CleanCodeCanonical(s: string, p: nat, letter: char -> bool, manySpaces: bool)
    requires forall c :: letter(c) ==> !IsSpace(c)
    requires CodeAt(s, p, letter, manySpaces).Some?
    ensures CanonicalCode(CleanCode(s[p..CodeAt(s, p, letter, manySpaces).value]), letter)
  {
    var e := CodeAt(s, p, letter, manySpaces).value;
    var b := LettersAt(s, p, letter).value;
    var d := GapEnd(s, b, manySpaces);
    DigitsPieces(s, b, manySpaces);
    LettersDept(s, p, letter);
    PiecesCanonical(s, p, b, d, e, letter);
  }

  /** The department, gap and number pieces of `s[p..e]`, cut at `b` and
      `d`, clean to a canonical code. */
  lemma PiecesCanonical(s: string, p: nat, b: nat, d: nat, e: nat, letter: char -> bool)
    requires forall c :: letter(c) ==> !IsSpace(c)
    requires p <= b < d && d + 3 <= e <= d + 4 && e <= |s|
    requires Dept(s[p..b], letter) && forall i :: p <= i < b ==> !IsSpace(s[i]) || letter(s[i])
    requires forall i :: b <= i < d ==> IsSpace(s[i])
    requires forall i :: d <= i < e ==> IsDigit(s[i])
    ensures CanonicalCode(CleanCode(s[p..e]), letter)
  {
    var dept := s[p..b];
    var gap := s[b..d];
    var num := s[d..e];
    SliceParts(s, p, b, d, e);
    forall i | 0 <= i < |dept| ensures !IsSpace(dept[i]) {
      assert dept[i] == s[p + i];
    }
    forall i | 0 <= i < |gap| ensures IsSpace(gap[i]) {
      assert gap[i] == s[b + i];
    }
    forall i | 0 <= i < |num| ensures IsDigit(num[i]) {
      assert num[i] == s[d + i];
    }
    JoinCleanCanonical(dept, gap, num, letter);
  }

  /** A department, a white-space run and three or four digits clean to a
      canonical code. */
  lemma JoinCleanCanonical(dept: string, gap: string, num: string, letter: char -> bool)
    requires Dept(dept, letter) && forall i :: 0 <= i < |dept| ==> !IsSpace(dept[i])
    requires gap != [] && forall i :: 0 <= i < |gap| ==> IsSpace(gap[i])
    requires 3 <= |num| <= 4 && AllDigits(num)
    ensures CanonicalCode(CleanCode(dept + gap + num), letter)
  {
    CleanJoin(dept, gap, num);
    JoinCanonical(dept, num, letter);
  }

  // ---------------------------------------------------------- the time range

  /** `\d{1,2}:\d{2}[ap]?m?` under the `i` flag at `p`. Two digits are
      taken when there are two, since giving one back leaves a digit where
      `:` is needed; the marker letters are taken whenever present, since
      what may follow them (white space, `-`, `to`, a digit or the end)
      cannot start with them. */
  function ClockCapture(s: string, p: nat): (r: Option<(nat, RawClock)>)
    ensures r.Some? ==> p < r.value.0 <= |s| && r.value.1.Valid() && s[p..r.value.0] == r.value.1.Text()
  {
    if p >= |s| || !IsDigit(s[p]) then None
    else
      var h := if p + 1 < |s| && IsDigit(s[p + 1]) then 2 else 1;
      var q := p + h;
      if q + 3 > |s| || s[q] != ':' || !IsDigit(s[q + 1]) || !IsDigit(s[q + 2]) then None
      else
        var m := q + 3;
        var a := if m < |s| && s[m] in "aApP" then 1 else 0;
        var z := if m + a < |s| && s[m + a] in "mM" then 1 else 0;
        var e := m + a + z;
        ClockParts(s, p, q, m, a, z, e);
        Some((e, RawClock(s[p..q], s[q + 1..m], s[m..e])))
  }

  /** Completeness of the clock scanner on a two-digit hour without a
      marker: `hh:mm` at `p`, not followed by a marker letter, is a clock
      ending at `p + 5`. */
  lemma ClockCaptureBare(s: string, p: nat)
    requires p + 5 <= |s| && IsDigit(s[p]) && IsDigit(s[p + 1]) && s[p + 2] == ':'
    requires IsDigit(s[p + 3]) && IsDigit(s[p + 4])
    requires p + 5 == |s| || s[p + 5] !in "aApPmM"
    ensures ClockCapture(s, p) == Some((p + 5, RawClock([s[p], s[p + 1]], [s[p + 3], s[p + 4]], "")))
  {
    assert s[p..p + 2] == [s[p], s[p + 1]];
    assert s[p + 3..p + 5] == [s[p + 3], s[p + 4]];
  }

  /** The pieces the clock scanner cuts make a valid clock whose text is
      the scanned part of `s`. */
  lemma ClockParts(s: string, p: nat, q: nat, m: nat, a: nat, z: nat, e: nat)
    requires p < q <= p + 2 && m == q + 3 && a <= 1 && z <= 1 && e == m + a + z && e <= |s|
    requires IsDigit(s[p]) && (q == p + 2 ==> IsDigit(s[p + 1]))
    requires s[q] == ':' && IsDigit(s[q + 1]) && IsDigit(s[q + 2])
    requires a == 1 ==> s[m] in "aApP"
    requires z == 1 ==> s[m + a] in "mM"
    ensures var c := RawClock(s[p..q], s[q + 1..m], s[m..e]);
            c.Valid() && s[p..e] == c.Text()
  {
    var hour, minute := s[p..q], s[q + 1..m];
    assert hour[0] == s[p] && minute[0] == s[q + 1] && minute[1] == s[q + 2];
    if q == p + 2 { assert hour[1] == s[p + 1]; }
    ClockSlices(s, p, q, e);
    MarkerValid(s, m, a, z);
  }

  lemma MarkerValid(s: string, m: nat, a: nat, z: nat)
    requires a <= 1 && z <= 1 && m + a + z <= |s|
    requires a == 1 ==> s[m] in "aApP"
    requires z == 1 ==> s[m + a] in "mM"
    ensures ValidMarker(s[m..m + a + z])
  {
    var t := s[m..m + a + z];
    if a == 1 { assert t[0] == s[m]; }
    if z == 1 { assert t[a] == s[m + a]; }
  }

  /** The text of a clock is its hour digits, the colon, the minute digits
      and the marker. */
  lemma ClockSlices(s: string, p: nat, q: nat, k: nat)
    requires p <= q && q + 3 <= k <= |s| && s[q] == ':'
    ensures s[p..k] == s[p..q] + ":" + s[q + 1..q + 3] + s[q + 3..k]
  {
    assert s[p..k] == s[p..q] + s[q..q + 1] + s[q + 1..q + 3] + s[q + 3..k];
    assert s[q..q + 1] == ":";
  }

  /** `\d{1,2}:\d{2}[ap]?m?\s*(?:-|to)\s*\d{1,2}:\d{2}[ap]?m?` under the
      `i` flag at `p`: the captured range and its end. */
  function RangeAt(s: string, p: nat): (r: Option<(nat, RawRange)>)
    ensures r.Some? ==> p < r.value.0 <= |s| && r.value.1.Valid() && s[p..r.value.0] == r.value.1.Text()
  {
    match ClockCapture(s, p)
    case None => None
    case Some((e1, start)) => RangeAfter(s, p, e1, start)
  }

  /** The length of the separator `-` or `to` (in either case) at `t`, or
      0 when neither is there. */
  function SepLen(s: string, t: nat): (n: nat)
    requires t <= |s|
    ensures t + n <= |s| && n <= 2
  {
    if t < |s| && s[t] == '-' then 1
    else if t + 2 <= |s| && s[t] in "tT" && s[t + 1] in "oO" then 2
    else 0
  }

  /** A separator found at `t` is `-` or `to` in either case. */
  lemma SepText(s: string, t: nat)
    requires t <= |s| && SepLen(s, t) != 0
    ensures var n := SepLen(s, t);
            s[t..t + n] == "-" || (|s[t..t + n]| == 2 && s[t..t + n][0] in "tT" && s[t..t + n][1] in "oO")
  {
    if SepLen(s, t) == 1 { assert s[t..t + 1] == [s[t]]; }
  }

  /** `s[p..e]` is the text of the valid range `r`. */
  predicate Captured(s: string, p: nat, e: nat, r: RawRange) {
    p < e <= |s| && r.Valid() && s[p..e] == r.Text()
  }

  /** The rest of a range after its start clock `s[p..e1]`. */
  function RangeAfter(s: string, p: nat, e1: nat, start: RawClock): (r: Option<(nat, RawRange)>)
    requires p < e1 <= |s| && start.Valid() && s[p..e1] == start.Text()
    ensures r.Some? ==> Captured(s, p, r.value.0, r.value.1)
  {
    var t := e1 + Span(s, e1, IsSpace);
    var sepLen := SepLen(s, t);
    if sepLen == 0 then None
    else
      SepText(s, t);
      RangeEnd(s, p, e1, start, t, t + sepLen)
  }

  /** The white space and the end clock after the separator `s[t..u]`. */
  function RangeEnd(s: string, p: nat, e1: nat, start: RawClock, t: nat, u: nat): (r: Option<(nat, RawRange)>)
    requires p < e1 <= |s| && start.Valid() && s[p..e1] == start.Text()
    requires t == e1 + Span(s, e1, IsSpace) && t < u <= |s|
    requires s[t..u] == "-" || (|s[t..u]| == 2 && s[t..u][0] in "tT" && s[t..u][1] in "oO")
    ensures r.Some? ==> Captured(s, p, r.value.0, r.value.1)
  {
    var v := u + Span(s, u, IsSpace);
    match ClockCapture(s, v)
    case None => None
    case Some((e2, end)) =>
      CapturedRange(s, p, e1, start, t, u, v, e2, end);
      Some((e2, RawRange(start, s[e1..t], s[t..u], s[u..v], end)))
  }

  /** Completeness of the range scanner on `hh:mm-hh:mm`: two bare
      clocks joined by `-` at `p`, the second not followed by a marker
      letter, are a range ending at `p + 11`. */
  lemma RangeAtDash(s: string, p: nat)
    requires p + 11 <= |s| && s[p + 5] == '-'
    requires IsDigit(s[p]) && IsDigit(s[p + 1]) && s[p + 2] == ':' && IsDigit(s[p + 3]) && IsDigit(s[p + 4])
    requires IsDigit(s[p + 6]) && IsDigit(s[p + 7]) && s[p + 8] == ':' && IsDigit(s[p + 9]) && IsDigit(s[p + 10])
    requires p + 11 == |s| || s[p + 11] !in "aApPmM"
    ensures RangeAt(s, p) == Some((p + 11, DashRange(s, p)))
  {
    ClockCaptureBare(s, p);
    ClockCaptureBare(s, p + 6);
    var start := RawClock([s[p], s[p + 1]], [s[p + 3], s[p + 4]], "");
    RangeAfterDash(s, p, start);
  }

  /** The range `hh:mm-hh:mm` at `p`, read off character by character. */
  function DashRange(s: string, p: nat): RawRange
    requires p + 11 <= |s|
  {
    RawRange(RawClock([s[p], s[p + 1]], [s[p + 3], s[p + 4]], ""), "", "-", "",
             RawClock([s[p + 6], s[p + 7]], [s[p + 9], s[p + 10]], ""))
  }

  lemma RangeAfterDash(s: string, p: nat, start: RawClock)
    requires p + 11 <= |s| && s[p + 5] == '-'
    requires start == RawClock([s[p], s[p + 1]], [s[p + 3], s[p + 4]], "")
    requires ClockCapture(s, p) == Some((p + 5, start))
    requires ClockCapture(s, p + 6) == Some((p + 11, RawClock([s[p + 6], s[p + 7]], [s[p + 9], s[p + 10]], "")))
    ensures start.Valid() && s[p..p + 5] == start.Text()
    ensures RangeAfter(s, p, p + 5, start) == Some((p + 11, DashRange(s, p)))
  {
    SpanExact(s, p + 5, IsSpace, 0);
    SpanExact(s, p + 6, IsSpace, 0);
    assert s[p + 5..p + 5] == "" && s[p + 6..p + 6] == "";
    assert s[p + 5..p + 6] == "-";
  }

  /** The pieces `RangeAfter` cuts out form a valid range whose text is
      what was matched. */
  lemma CapturedRange(s: string, p: nat, e1: nat, start: RawClock, t: nat, u: nat, v: nat, e2: nat, end: RawClock)
    requires p < e1 <= |s| && start.Valid() && s[p..e1] == start.Text()
    requires t == e1 + Span(s, e1, IsSpace) && t < u <= |s|
    requires s[t..u] == "-" || (|s[t..u]| == 2 && s[t..u][0] in "tT" && s[t..u][1] in "oO")
    requires v == u + Span(s, u, IsSpace) && v < e2 <= |s| && end.Valid() && s[v..e2] == end.Text()
    ensures Captured(s, p, e2, RawRange(start, s[e1..t], s[t..u], s[u..v], end))
  {
    var r := RawRange(start, s[e1..t], s[t..u], s[u..v], end);
    SpanSlice(s, e1, t - e1);
    SpanSlice(s, u, v - u);
    RangeFacts(s, p, e1, t, u, v, e2, r);
  }

  lemma RangeFacts(s: string, p: nat, e1: nat, t: nat, u: nat, v: nat, e2: nat, r: RawRange)
    requires p <= e1 <= t <= u <= v <= e2 <= |s|
    requires r.start.Valid() && s[p..e1] == r.start.Text()
    requires r.end.Valid() && s[v..e2] == r.end.Text()
    requires r.before == s[e1..t] && r.sep == s[t..u] && r.after == s[u..v]
    requires AllSpace(r.before) && AllSpace(r.after)
    requires r.sep == "-" || (|r.sep| == 2 && r.sep[0] in "tT" && r.sep[1] in "oO")
    ensures r.Valid() && s[p..e2] == r.Text()
  {
    RangeParts(s, p, e1, t, u, v, e2);
  }

  lemma SpanSlice(s: string, p: nat, k: nat)
    requires p <= |s| && k == Span(s, p, IsSpace)
    ensures AllSpace(s[p..p + k])
  {
    var t := s[p..p + k];
    assert forall i :: 0 <= i < k ==> t[i] == s[p + i];
  }

  lemma RangeParts(s: string, a: nat, b: nat, c: nat, d: nat, e: nat, f: nat)
    requires a <= b <= c <= d <= e <= f <= |s|
    ensures s[a..f] == s[a..b] + s[b..c] + s[c..d] + s[d..e] + s[e..f]
  {
    assert s[a..f] == s[a..b] + s[b..f];
    assert s[b..f] == s[b..c] + s[c..f];
    assert s[c..f] == s[c..d] + s[d..f];
    assert s[d..f] == s[d..e] + s[e..f];
  }

  /** The captured range text starts with a digit and ends with a digit or
      a marker letter, so trimming it changes nothing. */
  lemma RangeTextTrimmed(r: RawRange)
    requires r.Valid()
    ensures Trim(r.Text()) == r.Text()
  {
    var t := r.Text();
    assert t[0] == r.start.hour[0];
    var e := r.end.Text();
    assert t[|t| - 1] == e[|e| - 1];
    TrimNoOp(t);
  }

  /** `normalizeTime` on the trimmed capture of a range is defined and gives
      the canonical text of the range. */
  lemma NormalizeCapture(s: string, p: nat)
    requires RangeAt(s, p).Some?
    ensures var (e, r) := RangeAt(s, p).value;
            NormalizeTime(Trim(s[p..e])) == Some(Canonical(r))
  {
    var (e, r) := RangeAt(s, p).value;
    RangeTextTrimmed(r);
    NormalizeRange(r);
  }
}
