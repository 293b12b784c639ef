/** `processCourses` (script.js:123-150): the course codes a registration
    listing names. The primary pattern takes a code that follows a row
    number and white space; the codes are cleaned and deduplicated in
    order of first occurrence. Only when that yields nothing does the bare
    code pattern run over the whole text, and then the raw matches are
    deduplicated before they are cleaned. Neither pattern carries the `i`
    flag, so department letters are upper case. */
module Registration {
  import opened Text
  import opened Scan

  // ------------------------------------------------ first-occurrence order

  predicate Distinct(r: seq<string>) {
    forall i, j :: 0 <= i < j < |r| ==> r[i] != r[j]
  }

  /** `[...new Set(xs)]`: each distinct element once, in the order in which
      it first occurs. */
  function Dedup(xs: seq<string>): (r: seq<string>)
    ensures forall x :: x in r <==> x in xs
    ensures Distinct(r)
    decreases |xs|
  {
    if xs == [] then []
    else
      var init := xs[..|xs| - 1];
      var x := xs[|xs| - 1];
      assert xs == init + [x];
      var r := Dedup(init);
      if x in r then r else r + [x]
  }

  /** The position of the first occurrence of `x`. */
  function FirstIndex(xs: seq<string>, x: string): (i: nat)
    requires x in xs
    ensures i < |xs| && xs[i] == x
    ensures forall j :: 0 <= j < i ==> xs[j] != x
  {
    if xs[0] == x then 0
    else
      assert xs == [xs[0]] + xs[1..];
      1 + FirstIndex(xs[1..], x)
  }

  lemma FirstIndexIs(xs: seq<string>, x: string, i: nat)
    requires i < |xs| && xs[i] == x
    requires forall j :: 0 <= j < i ==> xs[j] != x
    ensures FirstIndex(xs, x) == i
  {
  }

  /** A first occurrence in a prefix is the first occurrence in the whole. */
  lemma FirstIndexPrefix(xs: seq<string>, k: nat, x: string)
    requires k <= |xs| && x in xs[..k]
    ensures FirstIndex(xs, x) == FirstIndex(xs[..k], x)
  {
    var i := FirstIndex(xs[..k], x);
    assert forall j :: 0 <= j <= i ==> xs[..k][j] == xs[j];
    FirstIndexIs(xs, x, i);
  }

  /** `r` lists elements of `xs` in the order of their first occurrences. */
  predicate FirstOrder(xs: seq<string>, r: seq<string>)
    requires forall y :: y in r ==> y in xs
  {
    forall i, j :: 0 <= i < j < |r| ==> FirstIndex(xs, r[i]) < FirstIndex(xs, r[j])
  }

  /** The order of first occurrences in a prefix is kept in the whole. */
  lemma FirstOrderPrefix(xs: seq<string>, n: nat, r: seq<string>)
    requires n <= |xs| && forall y :: y in r ==> y in xs[..n]
    requires FirstOrder(xs[..n], r)
    ensures forall y :: y in r ==> y in xs
    ensures FirstOrder(xs, r)
  {
    forall y | y in r ensures y in xs && FirstIndex(xs, y) == FirstIndex(xs[..n], y) {
      FirstIndexPrefix(xs, n, y);
    }
  }

  /** The last element of `xs`, missing from its earlier elements, occurs
      first after all of them. */
  lemma FirstOrderLast(xs: seq<string>, r: seq<string>)
    requires xs != [] && forall y :: y in r ==> y in xs[..|xs| - 1]
    requires xs[|xs| - 1] !in xs[..|xs| - 1]
    requires forall y :: y in r ==> y in xs
    requires FirstOrder(xs, r)
    ensures forall y :: y in r + [xs[|xs| - 1]] ==> y in xs
    ensures FirstOrder(xs, r + [xs[|xs| - 1]])
  {
    var n := |xs| - 1;
    var x := xs[n];
    var t := r + [x];
    FirstIndexIs(xs, x, n);
    forall i, j | 0 <= i < j < |t| ensures FirstIndex(xs, t[i]) < FirstIndex(xs, t[j]) {
      assert t[i] == r[i];
      if j < |r| {
        assert t[j] == r[j];
      } else {
        assert t[i] in xs[..n];
      }
    }
  }

  lemma DedupLast(xs: seq<string>)
    requires xs != []
    ensures var r0 := Dedup(xs[..|xs| - 1]);
            Dedup(xs) == if xs[|xs| - 1] in r0 then r0 else r0 + [xs[|xs| - 1]]
  {
  }

  /** `Dedup` lists the elements in the order of their first occurrences. */
  lemma {:induction false} DedupOrder(xs: seq<string>)
    ensures forall i, j :: 0 <= i < j < |Dedup(xs)| ==>
              FirstIndex(xs, Dedup(xs)[i]) < FirstIndex(xs, Dedup(xs)[j])
    decreases |xs|
  {
    if xs != [] {
      var n := |xs| - 1;
      var r0 := Dedup(xs[..n]);
      DedupOrder(xs[..n]);
      assert FirstOrder(xs[..n], r0);
      FirstOrderPrefix(xs, n, r0);
      DedupLast(xs);
      if xs[n] !in r0 {
        FirstOrderLast(xs, r0);
      }
      assert FirstOrder(xs, Dedup(xs));
    }
  }

  // ------------------------------------------------------ the two patterns

  lemma UpperNotSpace()
    ensures forall c :: IsUpper(c) ==> !IsSpace(c)
  {
  }

  /** `\d+\s+([A-Z]{3,4}(?:\/[A-Z]{3,4})?\s+\d{3,4})` at `p`: the end of
      the match and group 1 cleaned. The digit run and the white space
      after it are taken whole, since giving any back leaves a digit where
      white space is needed or white space where a letter is. */
  function NumberedAt(s: string, p: nat): (r: Option<(nat, string)>)
    ensures r.Some? ==> p < r.value.0 <= |s| && CanonicalCode(r.value.1, IsUpper)
  {
    if p > |s| then None
    else
      var n := Span(s, p, IsDigit);
      var q := CodeStart(s, p);
      if n == 0 || q == p + n then None
      else
        match CodeAt(s, q, IsUpper, true)
        case None => None
        case Some(e) =>
          UpperNotSpace();
          CleanCodeCanonical(s, q, IsUpper, true);
          Some((e, CleanCode(s[q..e])))
  }

  /** Where the code of a numbered row starting at `p` starts: after the
      digit run and the white space that follows it. */
  function CodeStart(s: string, p: nat): (q: nat)
    requires p <= |s|
    ensures q <= |s|
  {
    var n := Span(s, p, IsDigit);
    p + n + Span(s, p + n, IsSpace)
  }

  /** `[A-Z]{3,4}(?:\/[A-Z]{3,4})?\s\d{3,4}` at `p`: the end of the match
      and the matched text, uncleaned. */
  function BareAt(s: string, p: nat): (r: Option<(nat, string)>)
    ensures r.Some? ==> p < r.value.0 <= |s| && r.value.1 == s[p..r.value.0]
  {
    match CodeAt(s, p, IsUpper, false)
    case None => None
    case Some(e) => Some((e, s[p..e]))
  }

  /** Completeness of the primary pattern: at `p`, a run of digits up to
      `k`, white space up to `q`, a word of three or four upper-case
      letters up to `b`, white space up to `d` and a run of three or four
      digits up to `e` form a match ending at `e`, whose code is the word,
      one space and the number. */
  lemma NumberedAtExact(s: string, p: nat, k: nat, q: nat, b: nat, d: nat, e: nat)
    requires p < k < q && q + 3 <= b <= q + 4 && b < d && d + 3 <= e <= d + 4 && e <= |s|
    requires forall i :: p <= i < k ==> IsDigit(s[i])
    requires forall i :: k <= i < q ==> IsSpace(s[i])
    requires forall i :: q <= i < b ==> IsUpper(s[i])
    requires forall i :: b <= i < d ==> IsSpace(s[i])
    requires !IsSpace(s[d]) && forall i :: d <= i < e ==> IsDigit(s[i])
    requires e == |s| || !IsDigit(s[e])
    ensures NumberedAt(s, p) == Some((e, s[q..b] + " " + s[d..e]))
  {
    NumberedPrefix(s, p, k, q);
    UpperNotSpace();
    CodeAtExact(s, q, b, d, e, IsUpper, true);
    NumberedFound(s, p, k, q, e);
    NumberedClean(s, q, b, d, e);
  }

  lemma NumberedFound(s: string, p: nat, k: nat, q: nat, e: nat)
    requires p < k < q <= |s|
    requires Span(s, p, IsDigit) == k - p && CodeStart(s, p) == q
    requires CodeAt(s, q, IsUpper, true) == Some(e)
    ensures NumberedAt(s, p) == Some((e, CleanCode(s[q..e])))
  {
  }

  lemma NumberedPrefix(s: string, p: nat, k: nat, q: nat)
    requires p < k < q < |s| && !IsSpace(s[q])
    requires forall i :: p <= i < k ==> IsDigit(s[i])
    requires forall i :: k <= i < q ==> IsSpace(s[i])
    ensures Span(s, p, IsDigit) == k - p && CodeStart(s, p) == q
  {
    SpanExact(s, p, IsDigit, k - p);
    SpanExact(s, k, IsSpace, q - k);
  }

  lemma NumberedClean(s: string, q: nat, b: nat, d: nat, e: nat)
    requires q < b < d < e <= |s|
    requires forall i :: q <= i < b ==> IsUpper(s[i])
    requires forall i :: b <= i < d ==> IsSpace(s[i])
    requires forall i :: d <= i < e ==> IsDigit(s[i])
    ensures CleanCode(s[q..e]) == s[q..b] + " " + s[d..e]
  {
    var dept, gap, num := s[q..b], s[b..d], s[d..e];
    SliceParts(s, q, b, d, e);
    assert forall i :: 0 <= i < |dept| ==> dept[i] == s[q + i];
    assert forall i :: 0 <= i < |gap| ==> gap[i] == s[b + i];
    assert forall i :: 0 <= i < |num| ==> num[i] == s[d + i];
    CleanJoin(dept, gap, num);
  }

  /** A digit run not followed by white space starts no numbered row. */
  lemma NumberedNoGap(s: string, p: nat, k: nat)
    requires p < k <= |s| && forall i :: p <= i < k ==> IsDigit(s[i])
    requires k == |s| || (!IsDigit(s[k]) && !IsSpace(s[k]))
    ensures NumberedAt(s, p).None?
  {
    SpanExact(s, p, IsDigit, k - p);
  }

  /** No numbered row starts where there is no digit. */
  lemma NumberedNoDigits(s: string, a: nat, b: nat)
    requires a <= b <= |s| && forall i :: a <= i < b ==> !IsDigit(s[i])
    ensures forall q :: a <= q < b ==> NumberedAt(s, q).None?
  {
  }

  /** Completeness of the fallback pattern: at `p`, a word of three or four
      upper-case letters up to `b`, one white-space character and a run of
      three or four digits ending at `e` form a match ending at `e`. */
  lemma BareAtExact(s: string, p: nat, b: nat, e: nat)
    requires p + 3 <= b <= p + 4 && b + 4 <= e <= b + 5 && e <= |s|
    requires forall i :: p <= i < b ==> IsUpper(s[i])
    requires IsSpace(s[b]) && forall i :: b + 1 <= i < e ==> IsDigit(s[i])
    requires e == |s| || !IsDigit(s[e])
    ensures BareAt(s, p) == Some((e, s[p..e]))
  {
    UpperNotSpace();
    CodeAtExact(s, p, b, b + 1, e, IsUpper, false);
  }

  lemma NumberedAdvancing()
    ensures Advancing(NumberedAt)
  {
  }

  lemma BareAdvancing()
    ensures Advancing(BareAt)
  {
  }

  /** The cleaned codes of the numbered rows, in text order, duplicates
      included. */
  function NumberedCodes(text: string): seq<string> {
    NumberedAdvancing();
    Matches(text, 0, NumberedAt)
  }

  /** `text.match(courseRegexFallback)`: the raw bare-code matches in text
      order (`null` is the empty sequence). */
  function BareMatches(text: string): seq<string> {
    BareAdvancing();
    Matches(text, 0, BareAt)
  }

  /** `.map(code => code.replace(/\s+/g, ' ').trim())`. */
  function CleanAll(codes: seq<string>): (r: seq<string>)
    ensures |r| == |codes| && forall i :: 0 <= i < |codes| ==> r[i] == CleanCode(codes[i])
  {
    seq(|codes|, i requires 0 <= i < |codes| => CleanCode(codes[i]))
  }

  /** The list `processCourses` returns. */
  function RegisteredCodes(text: string): seq<string> {
    var unique := Dedup(NumberedCodes(text));
    if |unique| == 0 then
      var fallback := BareMatches(text);
      if fallback != [] then CleanAll(Dedup(fallback)) else []
    else unique
  }

  // ------------------------------------------------------------ the method

  /** `processCourses`: the `exec` loop of the primary pattern, then the
      fallback only when it found nothing. */
  method ProcessCourses(text: string) returns (codes: seq<string>)
    ensures codes == RegisteredCodes(text)
  {
    NumberedAdvancing();
    BareAdvancing();
    var courses := ExecAll(text, NumberedAt);
    var uniqueCourses := Dedup(courses);
    if |uniqueCourses| == 0 {
      var fallbackMatches := ExecAll(text, BareAt);
      if fallbackMatches != [] {
        return CleanAll(Dedup(fallbackMatches));
      } else {
        return [];
      }
    }
    return uniqueCourses;
  }

  // ------------------------------------------------------------ properties

  /** When a numbered row is present anywhere, the fallback does not run:
      the result is the numbered codes, each once, in order of first
      occurrence, all canonical (upper-case department, one space, number). */
  lemma PrimaryResult(text: string)
    requires exists q :: 0 <= q <= |text| && NumberedAt(text, q).Some?
    ensures var r := RegisteredCodes(text);
            && r == Dedup(NumberedCodes(text)) && r != []
            && Distinct(r)
            && (forall c :: c in r <==> c in NumberedCodes(text))
            && (forall c :: c in r ==> CanonicalCode(c, IsUpper))
            && (forall i, j :: 0 <= i < j < |r| ==>
                  FirstIndex(NumberedCodes(text), r[i]) < FirstIndex(NumberedCodes(text), r[j]))
  {
    NumberedAdvancing();
    MatchesEmpty(text, 0, NumberedAt);
    var codes := NumberedCodes(text);
    assert codes != [];
    assert codes[0] in Dedup(codes);
    forall c | c in codes ensures CanonicalCode(c, IsUpper) {
      MatchesFrom(text, 0, NumberedAt, c);
    }
    DedupOrder(codes);
  }

  /** Cleaning a list holding the same elements as `raw` yields the clean
      form of every element of `raw`, and nothing else. */
  lemma CleanAllCovers(d: seq<string>, raw: seq<string>)
    requires forall x :: x in d <==> x in raw
    ensures forall m :: m in raw ==> CleanCode(m) in CleanAll(d)
    ensures forall c :: c in CleanAll(d) ==> exists m :: m in raw && c == CleanCode(m)
  {
    var r := CleanAll(d);
    forall m | m in raw ensures CleanCode(m) in r {
      var i :| 0 <= i < |d| && d[i] == m;
      assert r[i] == CleanCode(m);
    }
    forall c | c in r ensures exists m :: m in raw && c == CleanCode(m) {
      var i :| 0 <= i < |r| && r[i] == c;
      assert d[i] in raw;
    }
  }

  /** With no numbered row anywhere, the result is the cleaned bare codes:
      every bare code of the text appears in it, cleaned, and only those.
      The raw matches are deduplicated before cleaning, so the result is
      not always free of duplicates. */
  lemma FallbackResult(text: string)
    requires forall q :: 0 <= q <= |text| ==> NumberedAt(text, q).None?
    ensures RegisteredCodes(text) == CleanAll(Dedup(BareMatches(text)))
    ensures forall m :: m in BareMatches(text) ==> CleanCode(m) in RegisteredCodes(text)
    ensures forall c :: c in RegisteredCodes(text) ==> exists m :: m in BareMatches(text) && c == CleanCode(m)
  {
    NumberedAdvancing();
    MatchesEmpty(text, 0, NumberedAt);
    assert NumberedCodes(text) == [];
    var raw := BareMatches(text);
    assert Dedup([]) == [];
    CleanAllCovers(Dedup(raw), raw);
  }

  /** `processCourses` returns the empty list exactly when neither pattern
      matches anywhere in the text. */
  lemma EmptyResult(text: string)
    ensures RegisteredCodes(text) == [] <==>
              (forall q :: 0 <= q <= |text| ==> NumberedAt(text, q).None?) &&
              (forall q :: 0 <= q <= |text| ==> BareAt(text, q).None?)
  {
    NumberedAdvancing();
    BareAdvancing();
    MatchesEmpty(text, 0, NumberedAt);
    MatchesEmpty(text, 0, BareAt);
    var codes := NumberedCodes(text);
    if codes != [] {
      assert codes[0] in Dedup(codes);
    }
    var raw := BareMatches(text);
    if raw != [] {
      assert raw[0] in Dedup(raw);
    }
  }
}
