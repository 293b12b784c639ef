/** What `processTimetable` guarantees about the entries it returns: the
    day context is sticky and applies from its own line on, blank lines add
    nothing, each line contributes detailed entries or fallback entries but
    never both, and every entry carries a day name or "Unknown", a
    canonical time and the sentinels of the pattern that produced it. */
module TimetableProps {
  import opened Text
  import opened Time
  import opened Scan
  import opened Timetable
  import opened LineFold

  // ------------------------------------------- detailed versus fallback

  /** The fallback pattern runs on a line exactly when the detailed one
      matches nowhere on it: if the detailed pattern matches somewhere, the
      line's rows are all detailed and there is at least one; otherwise
      they are all fallback rows. */
  lemma LineRowsExclusive(t: string)
    ensures (exists q :: 0 <= q <= |t| && DetailedAt(t, q).Some?) ==>
              LineRows(t) != [] && forall r :: r in LineRows(t) ==> IsDetailed(r)
    ensures (forall q :: 0 <= q <= |t| ==> DetailedAt(t, q).None?) ==>
              forall r :: r in LineRows(t) ==> IsSimple(r)
  {
    DetailedAdvancing();
    SimpleAdvancing();
    MatchesEmpty(t, 0, DetailedAt);
    forall r | r in Matches(t, 0, DetailedAt) ensures IsDetailed(r) {
      MatchesFrom(t, 0, DetailedAt, r);
    }
    forall r | r in Matches(t, 0, SimpleAt) ensures IsSimple(r) {
      MatchesFrom(t, 0, SimpleAt, r);
    }
  }

  /** An entry and the row it was stamped from. */
  function RowOf(e: Entry): Row {
    Row(e.code, e.name, e.time, e.hall)
  }

  /** Stamping rows with a day keeps each row and sets the day. */
  lemma StampAllRows(day: string, rows: seq<Row>)
    ensures forall e :: e in StampAll(day, rows) ==> e.day == day && RowOf(e) in rows
  {
    var es := StampAll(day, rows);
    forall e | e in es ensures e.day == day && RowOf(e) in rows {
      var i :| 0 <= i < |es| && es[i] == e;
      assert RowOf(es[i]) == rows[i];
    }
  }

  /** The entries of one line all come from the detailed pattern or all
      from the fallback pattern, and all carry the day given. */
  lemma LineEntriesExclusive(day: string, line: string)
    ensures forall e :: e in LineEntries(day, line) ==> e.day == day
    ensures (forall e :: e in LineEntries(day, line) ==> IsDetailed(RowOf(e))) ||
            (forall e :: e in LineEntries(day, line) ==> IsSimple(RowOf(e)))
  {
    var t := Trim(line);
    if t != [] {
      var rows := LineRows(t);
      LineRowsExclusive(t);
      StampAllRows(day, rows);
      assert (forall r :: r in rows ==> IsDetailed(r)) || (forall r :: r in rows ==> IsSimple(r));
    }
  }

  // ------------------------------------------------ the fold over lines

  /** Processing `a + b` is processing `a` and then `b` under the day in
      effect after `a`: earlier entries come first, and a heading stays in
      effect for every later line until the next heading. */
  lemma EntriesOfAppend(day: string, a: seq<string>, b: seq<string>)
    ensures LatestDay(day, a + b) == LatestDay(LatestDay(day, a), b)
    ensures EntriesOf(day, a + b) == EntriesOf(day, a) + EntriesOf(LatestDay(day, a), b)
  {
    Append(day, a, b, Heading, LineEntries);
  }

  /** A blank line changes neither the entries nor the day in effect. */
  lemma BlankLineInert(day: string, a: seq<string>, line: string, b: seq<string>)
    requires Trim(line) == []
    ensures LatestDay(day, a + [line] + b) == LatestDay(day, a + b)
    ensures EntriesOf(day, a + [line] + b) == EntriesOf(day, a + b)
  {
    BlankNoHeading(line);
    Inert(day, a, line, b, Heading, LineEntries);
  }

  /** A line headed by a day: its own entries and those of every later
      line start from that day, whatever was in effect before; the
      entries of earlier lines are untouched. */
  lemma HeadingLine(day: string, a: seq<string>, line: string, b: seq<string>, h: string)
    requires Heading(line) == Some(h)
    ensures EntriesOf(day, a + [line] + b) == EntriesOf(day, a) + LineEntries(h, line) + EntriesOf(h, b)
    ensures LatestDay(day, a + [line] + b) == LatestDay(h, b)
  {
    Sets(day, a, line, b, h, Heading, LineEntries);
  }

  // ----------------------------------------------- what every entry holds

  /** The day in effect is always the starting day or a day name. */
  lemma LatestDayIs(day: string, lines: seq<string>)
    ensures LatestDay(day, lines) == day || LatestDay(day, lines) in DayNames
  {
    LatestFrom(day, lines, Heading);
    var d := LatestDay(day, lines);
    if d != day {
      var i :| 0 <= i < |lines| && Heading(lines[i]) == Some(d);
      assert d in DayNames[0..];
    }
  }

  /** A well-formed entry as `processTimetable` pushes it: its day is a day
      name or the starting day, its time is canonical, and its row is a
      detailed row or a fallback row (name "Details N/A", hall "N/A"), and
      its code is the canonical `letters digits` form. */
  predicate WellFormed(day: string, e: Entry) {
    && (e.day == day || e.day in DayNames) && Fixed(e.time) && CanonicalCode(e.code, IsLetter)
    && (IsDetailed(RowOf(e)) || IsSimple(RowOf(e)))
  }

  lemma EntriesWellFormed(day: string, lines: seq<string>)
    ensures forall e :: e in EntriesOf(day, lines) ==> WellFormed(day, e)
  {
    forall e | e in EntriesOf(day, lines) ensures WellFormed(day, e) {
      CollectFrom(day, lines, Heading, LineEntries, e);
      var i :| 0 <= i < |lines| && e in LineEntries(LatestDay(day, lines[..i + 1]), lines[i]);
      LatestDayIs(day, lines[..i + 1]);
      LineEntriesExclusive(LatestDay(day, lines[..i + 1]), lines[i]);
      LineEntryCodes(LatestDay(day, lines[..i + 1]), lines[i]);
    }
  }

  /** Every entry `processTimetable` returns is well formed with "Unknown"
      as the day before any heading. */
  lemma TimetableWellFormed(text: string)
    ensures forall e :: e in TimetableEntries(text) ==> WellFormed(UnknownDay, e)
  {
    EntriesWellFormed(UnknownDay, Split(text, '\n'));
  }

  // ------------------------------------------------------------ the codes

  lemma LetterNotSpace()
    ensures forall ch :: IsLetter(ch) ==> !IsSpace(ch)
  {
  }

  /** A detailed match at `p` carries the code found at `p`, cleaned to
      its canonical form: letters, one space, three or four digits. */
  lemma DetailedCode(s: string, p: nat)
    requires DetailedAt(s, p).Some?
    ensures CanonicalCode(DetailedAt(s, p).value.1.code, IsLetter)
  {
    assert DetailedAt(s, p).value.1.code == CleanCode(s[p..CodeAt(s, p, IsLetter, false).value]);
    LetterNotSpace();
    CleanCodeCanonical(s, p, IsLetter, false);
  }

  /** A fallback match at `p` carries the code found at `p`, cleaned to
      its canonical form. */
  lemma SimpleCode(s: string, p: nat)
    requires SimpleAt(s, p).Some?
    ensures CanonicalCode(SimpleAt(s, p).value.1.code, IsLetter)
  {
    assert SimpleAt(s, p).value.1.code == CleanCode(s[p..CodeAt(s, p, IsLetter, false).value]);
    LetterNotSpace();
    CleanCodeCanonical(s, p, IsLetter, false);
  }

  /** Every row of a line carries a canonical code. */
  lemma LineRowCodes(t: string)
    ensures forall r :: r in LineRows(t) ==> CanonicalCode(r.code, IsLetter)
  {
    DetailedAdvancing();
    SimpleAdvancing();
    forall r | r in Matches(t, 0, DetailedAt) ensures CanonicalCode(r.code, IsLetter) {
      MatchesFrom(t, 0, DetailedAt, r);
      var q, e :| 0 <= q < e <= |t| && DetailedAt(t, q) == Some((e, r));
      DetailedCode(t, q);
    }
    forall r | r in Matches(t, 0, SimpleAt) ensures CanonicalCode(r.code, IsLetter) {
      MatchesFrom(t, 0, SimpleAt, r);
      var q, e :| 0 <= q < e <= |t| && SimpleAt(t, q) == Some((e, r));
      SimpleCode(t, q);
    }
  }

  /** Every entry of a line carries a canonical code. */
  lemma LineEntryCodes(day: string, line: string)
    ensures forall e :: e in LineEntries(day, line) ==> CanonicalCode(e.code, IsLetter)
  {
    var t := Trim(line);
    if t != [] {
      LineRowCodes(t);
      StampAllRows(day, LineRows(t));
    }
  }
}
