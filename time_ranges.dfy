/** What `normalizeTime` does on the time ranges the timetable patterns can
    capture, stated on a structured reference for those ranges, and what
    `parseStartTimeForSorting` reads back from its output. */
module TimeRanges {
  import opened Text
  import opened Time

  /** A clock time as `\d{1,2}:\d{2}[ap]?m?` captures it under the `i` flag. */
  datatype RawClock = RawClock(hour: string, minute: string, marker: string) {
    predicate Valid() {
      1 <= |hour| <= 2 && AllDigits(hour) && |minute| == 2 && AllDigits(minute) && ValidMarker(marker)
    }

    function Text(): string { hour + ":" + minute + marker }
  }

  /** `[ap]?m?` in either case. */
  predicate ValidMarker(m: string) {
    m == [] || (|m| == 1 && m[0] in "aApPmM") || (|m| == 2 && m[0] in "aApP" && m[1] in "mM")
  }

  /** A range as the timetable patterns capture it:
      clock, `\s*`, `-` or `to`, `\s*`, clock. */
  datatype RawRange = RawRange(start: RawClock, before: string, sep: string, after: string, end: RawClock) {
    predicate Valid() {
      start.Valid() && end.Valid() && AllSpace(before) && AllSpace(after) &&
      (sep == "-" || (|sep| == 2 && sep[0] in "tT" && sep[1] in "oO"))
    }

    function Text(): string { start.Text() + before + sep + after + end.Text() }
  }

  predicate AllSpace(s: string) { forall i :: 0 <= i < |s| ==> IsSpace(s[i]) }

  // ----------------------------------------------------- reference records

  /** The meridiem an explicit marker names. A lone `m` names none. */
  function Marked(marker: string): Option<Meridiem> {
    if marker != [] && marker[0] in "aA" then Some(AM)
    else if marker != [] && marker[0] in "pP" then Some(PM)
    else None
  }

  /** The minute text the normaliser keeps: nothing removes a lone `m`, so
      it stays behind the minute digits. */
  function KeptMinute(c: RawClock): string {
    if c.marker == "m" || c.marker == "M" then c.minute + "m" else c.minute
  }

  /** The record a captured clock resolves to, as a start (`start` None) or
      as an end after the given start. */
  function Record(c: RawClock, start: Option<Clock>): Clock
    requires c.Valid()
  {
    var hour := Num(DecimalValue(c.hour));
    var ampm := match Marked(c.marker)
      case Some(m) => m
      case None => if start.Some? then EndMeridiem(hour, start.value) else StartMeridiem(hour);
    Clock(hour, KeptMinute(c), ampm, Hour24(hour, ampm))
  }

  /** The canonical text of a captured range. */
  function Canonical(r: RawRange): string
    requires r.Valid()
  {
    var st := Record(r.start, None);
    Full(st) + " - " + Full(Record(r.end, Some(st)))
  }

  /** A minute text the normaliser can produce from a capture. */
  predicate CanonicalMinute(m: string) {
    (|m| == 2 && AllDigits(m)) || (|m| == 3 && IsDigit(m[0]) && IsDigit(m[1]) && m[2] == 'm')
  }

  /** A record whose `full` text re-normalises to itself. */
  predicate CanonicalClock(c: Clock) {
    c.hour.Num? && c.hour.v >= 0 && CanonicalMinute(c.minute)
  }

  // ------------------------------------------------------- string helpers

  /** Characters that neither case conversion, separator unification nor
      marker detection touches. */
  predicate Plain(s: string) {
    forall i :: 0 <= i < |s| ==> IsDigit(s[i]) || s[i] == ':' || s[i] == 'm'
  }

  lemma LowerAppend(a: string, b: string)
    ensures Lower(a + b) == Lower(a) + Lower(b)
  {
    assert forall i :: 0 <= i < |a + b| ==> Lower(a + b)[i] == (Lower(a) + Lower(b))[i];
  }

  lemma LowerNoUpper(s: string)
    requires forall i :: 0 <= i < |s| ==> !IsUpper(s[i])
    ensures Lower(s) == s
  {
  }

  lemma IndexOfAt(a: string, b: string, c: char)
    requires c !in a && b != [] && b[0] == c
    ensures c in a + b && IndexOf(a + b, c) == |a|
  {
    var s := a + b;
    assert s[|a|] == c;
    var i := IndexOf(s, c);
    assert i == |a|;
  }

  /** Text without white space, `t` or `-` passes separator unification
      unchanged, and so does a space followed by a character that is not
      white space. */
  predicate Inert(x: string) {
    forall i {:trigger x[i]} :: 0 <= i < |x| ==>
      x[i] != 't' && x[i] != '-' && (IsSpace(x[i]) ==> i + 1 < |x| && !IsSpace(x[i + 1]))
  }

  lemma InertAt(x: string, i: nat)
    requires Inert(x) && i < |x|
    ensures x[i] != 't' && x[i] != '-' && (IsSpace(x[i]) ==> i + 1 < |x| && !IsSpace(x[i + 1]))
  {
  }

  lemma InertTail(x: string)
    requires Inert(x) && x != []
    ensures Inert(x[1..])
  {
    forall i | 0 <= i < |x[1..]|
      ensures x[1..][i] != 't' && x[1..][i] != '-' &&
              (IsSpace(x[1..][i]) ==> i + 1 < |x[1..]| && !IsSpace(x[1..][i + 1]))
    {
      var j := i + 1;
      assert x[1..][i] == x[j];
      InertAt(x, j);
      if IsSpace(x[j]) {
        assert x[1..][i + 1] == x[j + 1];
      }
    }
  }

  /** The first character of inert text is copied by one step of the
      unification. */
  lemma UnifyInertStep(x: string, rest: string)
    requires Inert(x) && x != []
    ensures UnifySeparators(x + rest) == [x[0]] + UnifySeparators(x[1..] + rest)
  {
    var s := x + rest;
    InertAt(x, 0);
    if IsSpace(x[0]) {
      InertAt(x, 1);
      assert s[1] == x[1];
      SpanExact(s, 0, IsSpace, 1);
    } else {
      SpanExact(s, 0, IsSpace, 0);
    }
    assert s[0] == x[0];
    assert s[1..] == x[1..] + rest;
  }

  lemma {:induction false} UnifyInert(x: string, rest: string)
    requires Inert(x)
    ensures UnifySeparators(x + rest) == x + UnifySeparators(rest)
    decreases |x|
  {
    if x == [] {
      assert x + rest == rest;
    } else {
      UnifyInertStep(x, rest);
      InertTail(x);
      UnifyInert(x[1..], rest);
      ConsAppend(x, UnifySeparators(rest));
    }
  }

  /** A separator `\s*(-|to)\s*` before text that does not start with white
      space becomes one `-`. */
  lemma UnifySeparator(before: string, sep: string, after: string, y: string)
    requires AllSpace(before) && AllSpace(after)
    requires sep == "-" || sep == "to"
    requires y == [] || !IsSpace(y[0])
    ensures UnifySeparators(before + sep + after + y) == "-" + UnifySeparators(y)
  {
    var s := before + sep + after + y;
    SeparatorSpans(before, sep, after, y);
    var w := |before|;
    if sep == "to" {
      assert s[w] == 't' && s[w + 1] == 'o';
    } else {
      assert s[w] == '-' && s[w] != 't';
    }
  }

  /** Where the white space around a separator starts and ends. */
  lemma SeparatorSpans(before: string, sep: string, after: string, y: string)
    requires AllSpace(before) && AllSpace(after)
    requires sep == "-" || sep == "to"
    requires y == [] || !IsSpace(y[0])
    ensures var s := before + sep + after + y;
            && |s| >= |before| + |sep| + |after|
            && Span(s, 0, IsSpace) == |before|
            && Span(s, |before| + |sep|, IsSpace) == |after|
            && s[|before|] == sep[0] && (sep == "to" ==> s[|before| + 1] == 'o')
            && s[|before| + |sep| + |after|..] == y
  {
    var s := before + sep + after + y;
    var w := |before|;
    assert s[w] == sep[0];
    SpanExact(s, 0, IsSpace, w);
    var a := w + |sep|;
    if sep == "to" {
      assert s[w + 1] == 'o';
    }
    if y != [] {
      assert s[a + |after|] == y[0];
    }
    SpanExact(s, a, IsSpace, |after|);
    assert s[a + |after|..] == y;
  }

  // ------------------------------------------------ parsing one component

  lemma PlainFacts(s: string)
    requires Plain(s)
    ensures 'a' !in s && 'p' !in s && 't' !in s && '-' !in s
    ensures forall i :: 0 <= i < |s| ==> !IsSpace(s[i]) && !IsUpper(s[i])
  {
    assert forall i :: 0 <= i < |s| ==> s[i] != 'a' && s[i] != 'p';
  }

  lemma TrimPlainSpace(p: string, gap: string)
    requires p != [] && Plain(p) && (gap == "" || gap == " ")
    ensures Trim(p + gap) == p
  {
    PlainFacts(p);
    var s := p + gap;
    assert !IsSpace(s[0]);
    assert TrimStart(s) == s;
    if gap == " " {
      assert s[..|s| - 1] == p;
      assert TrimEnd(s) == TrimEnd(p);
    }
  }

  /** Marker detection on `H:MM`, optional space, explicit lower-case
      marker: the marker is found and removed, and the trimmed rest is the
      clock text. */
  lemma StripMarked(p: string, gap: string, mk: string)
    requires p != [] && Plain(p) && (gap == "" || gap == " ")
    requires mk == "a" || mk == "am" || mk == "p" || mk == "pm"
    ensures StripMarker(p + gap + mk) == (Some(if mk[0] == 'a' then AM else PM), p)
  {
    PlainFacts(p);
    var q := p + gap;
    assert 'a' !in q && 'p' !in q;
    DropAppended(q, mk);
    if mk[0] == 'p' {
      assert 'a' !in mk;
      assert 'a' !in q + mk;
    }
    TrimPlainSpace(p, gap);
  }

  /** Dropping the marker appended to a text without its letter gives the
      text back. */
  lemma DropAppended(q: string, mk: string)
    requires mk == "a" || mk == "am" || mk == "p" || mk == "pm"
    requires mk[0] !in q
    ensures mk[0] in q + mk && DropMarker(q + mk, mk[0]) == q
  {
    var comp := q + mk;
    IndexOfAt(q, mk, mk[0]);
    var k := |q|;
    if mk == "am" || mk == "pm" {
      assert comp[k + 1] == 'm';
      assert comp[k + 2..] == [];
    } else {
      assert comp[k + 1..] == [];
    }
    assert comp[..k] == q;
  }

  lemma StripUnmarked(p: string)
    requires p != [] && Plain(p)
    ensures StripMarker(p) == (None, p)
  {
    PlainFacts(p);
    TrimPlainSpace(p, "");
    assert p + "" == p;
  }

  lemma SplitClockPieces(h: string, m: string)
    requires h != [] && AllDigits(h) && CanonicalMinute(m)
    ensures SplitClock(h + ":" + m) == (h, m)
  {
    assert (h + ":" + m)[|h|] == ':';
    assert ':' !in h by { assert forall i :: 0 <= i < |h| ==> h[i] != ':'; }
    assert ':' !in m by { assert forall i :: 0 <= i < |m| ==> m[i] != ':'; }
    SplitAt(h, ':', m);
    SplitNone(m, ':');
  }

  lemma ClockPlain(h: string, m: string)
    requires AllDigits(h) && CanonicalMinute(m)
    ensures Plain(h + ":" + m)
  {
  }

  /** `parseAndFormatTimeComponent` on `H:MM` (a lone `m` may follow the
      minute), optional space, then an explicit lower-case marker. */
  lemma ParseMarked(h: string, m: string, gap: string, mk: string, ref: Option<Clock>)
    requires h != [] && AllDigits(h) && CanonicalMinute(m)
    requires gap == "" || gap == " "
    requires mk == "a" || mk == "am" || mk == "p" || mk == "pm"
    ensures var ampm := if mk[0] == 'a' then AM else PM;
            var hour := Num(DecimalValue(h));
            ParseComponent(h + ":" + m + gap + mk, ref) == Some(Clock(hour, m, ampm, Hour24(hour, ampm)))
  {
    ClockPlain(h, m);
    StripMarked(h + ":" + m, gap, mk);
    SplitClockPieces(h, m);
    ParseIntOfDigits(h);
  }

  /** `parseAndFormatTimeComponent` on `H:MM` without a meridiem marker. */
  lemma ParseUnmarked(h: string, m: string, ref: Option<Clock>)
    requires h != [] && AllDigits(h) && CanonicalMinute(m)
    ensures var hour := Num(DecimalValue(h));
            var ampm := if ref.Some? then EndMeridiem(hour, ref.value) else StartMeridiem(hour);
            ParseComponent(h + ":" + m, ref) == Some(Clock(hour, m, ampm, Hour24(hour, ampm)))
  {
    ClockPlain(h, m);
    StripUnmarked(h + ":" + m);
    SplitClockPieces(h, m);
    ParseIntOfDigits(h);
  }

  /** The lower-cased capture of a clock. */
  function LowerClock(c: RawClock): string {
    c.hour + ":" + c.minute + Lower(c.marker)
  }

  lemma LowerClockText(c: RawClock)
    requires c.Valid()
    ensures Lower(c.Text()) == LowerClock(c)
  {
    LowerAppend(c.hour + ":" + c.minute, c.marker);
    assert Plain(c.hour + ":" + c.minute);
    PlainFacts(c.hour + ":" + c.minute);
    LowerNoUpper(c.hour + ":" + c.minute);
  }

  lemma LowerMarker(m: string)
    requires ValidMarker(m) && Marked(m).Some?
    ensures var lm := Lower(m);
            (lm == "a" || lm == "am" || lm == "p" || lm == "pm") &&
            Marked(m) == Some(if lm[0] == 'a' then AM else PM)
  {
  }

  lemma ParseClockMarked(c: RawClock, ref: Option<Clock>)
    requires c.Valid() && Marked(c.marker).Some?
    ensures ParseComponent(LowerClock(c), ref) == Some(Record(c, ref))
  {
    var lm := Lower(c.marker);
    LowerMarker(c.marker);
    assert c.marker != "m" && c.marker != "M";
    assert KeptMinute(c) == c.minute;
    var ampm := if lm[0] == 'a' then AM else PM;
    var hour := Num(DecimalValue(c.hour));
    assert Record(c, ref) == Clock(hour, c.minute, ampm, Hour24(hour, ampm));
    var t := LowerClock(c);
    assert t == c.hour + ":" + c.minute + "" + lm;
    ParseMarked(c.hour, c.minute, "", lm, ref);
  }

  lemma ParseClockUnmarked(c: RawClock, ref: Option<Clock>)
    requires c.Valid() && Marked(c.marker).None?
    ensures ParseComponent(LowerClock(c), ref) == Some(Record(c, ref))
  {
    assert c.marker == [] || c.marker == "m" || c.marker == "M";
    assert LowerClock(c) == c.hour + ":" + KeptMinute(c);
    ParseUnmarked(c.hour, KeptMinute(c), ref);
  }

  /** `parseAndFormatTimeComponent` on a lower-cased capture yields the
      reference record. */
  lemma ParseClock(c: RawClock, ref: Option<Clock>)
    requires c.Valid()
    ensures ParseComponent(LowerClock(c), ref) == Some(Record(c, ref))
  {
    if Marked(c.marker).Some? {
      ParseClockMarked(c, ref);
    } else {
      ParseClockUnmarked(c, ref);
    }
  }

  lemma LowerClockInert(c: RawClock)
    requires c.Valid()
    ensures Inert(LowerClock(c)) && '-' !in LowerClock(c)
    ensures LowerClock(c) != [] && IsDigit(LowerClock(c)[0])
    ensures !IsSpace(LowerClock(c)[|LowerClock(c)| - 1])
  {
    LowerClockChars(c);
    ClockCharsInert(LowerClock(c));
  }

  /** A lowered clock is made of digits, `:` and the marker letters. */
  lemma LowerClockChars(c: RawClock)
    requires c.Valid()
    ensures LowerClock(c) != [] && IsDigit(LowerClock(c)[0])
    ensures forall i :: 0 <= i < |LowerClock(c)| ==> IsDigit(LowerClock(c)[i]) || LowerClock(c)[i] in ":apm"
  {
    var s := LowerClock(c);
    var lm := Lower(c.marker);
    assert forall i :: 0 <= i < |lm| ==> lm[i] in "apm";
    forall i | 0 <= i < |s| ensures IsDigit(s[i]) || s[i] in ":apm" {
      if i >= |c.hour| + 1 + 2 { assert s[i] == lm[i - |c.hour| - 3]; }
    }
  }

  lemma ClockCharsInert(s: string)
    requires forall i :: 0 <= i < |s| ==> IsDigit(s[i]) || s[i] in ":apm"
    ensures Inert(s) && '-' !in s && (s != [] ==> !IsSpace(s[|s| - 1]))
  {
  }

  // ------------------------------------------------------ the whole range

  lemma LowerRange(r: RawRange)
    requires r.Valid()
    ensures Lower(r.Text()) == LowerClock(r.start) + r.before + Lower(r.sep) + r.after + LowerClock(r.end)
  {
    LowerClockText(r.start);
    LowerClockText(r.end);
    LowerNoUpper(r.before);
    LowerNoUpper(r.after);
    LowerAppend(r.start.Text() + r.before + r.sep + r.after, r.end.Text());
    LowerAppend(r.start.Text() + r.before + r.sep, r.after);
    LowerAppend(r.start.Text() + r.before, r.sep);
    LowerAppend(r.start.Text(), r.before);
  }

  lemma UnifyRange(a: string, before: string, sep: string, after: string, b: string)
    requires Inert(a) && Inert(b)
    requires AllSpace(before) && AllSpace(after) && (sep == "-" || sep == "to")
    requires b == [] || !IsSpace(b[0])
    ensures UnifySeparators(a + before + sep + after + b) == a + "-" + b
  {
    var tail := before + sep + after + b;
    Regroup(a, before, sep, after, b);
    UnifyInert(b, []);
    assert b + [] == b;
    UnifySeparator(before, sep, after, b);
    assert UnifySeparators(tail) == "-" + b;
    UnifyInert(a, tail);
  }

  lemma Regroup(a: string, before: string, sep: string, after: string, b: string)
    ensures a + before + sep + after + b == a + (before + sep + after + b)
    ensures a + ("-" + b) == a + "-" + b
  {
  }

  lemma UnifiedRange(r: RawRange)
    requires r.Valid()
    ensures UnifySeparators(Lower(r.Text())) == LowerClock(r.start) + "-" + LowerClock(r.end)
  {
    var ls := Lower(r.sep);
    assert ls == "-" || ls == "to";
    LowerRange(r);
    LowerClockInert(r.start);
    LowerClockInert(r.end);
    UnifyRange(LowerClock(r.start), r.before, ls, r.after, LowerClock(r.end));
  }

  lemma ComponentsOfJoined(a: string, b: string, raw: string)
    requires '-' !in a && '-' !in b
    requires a != [] && !IsSpace(a[0]) && !IsSpace(a[|a| - 1])
    requires b != [] && !IsSpace(b[0]) && !IsSpace(b[|b| - 1])
    requires UnifySeparators(Lower(raw)) == a + "-" + b
    ensures Components(raw) == (a, b)
  {
    SplitAt(a, '-', b);
    SplitNone(b, '-');
    TrimNoOp(a);
    TrimNoOp(b);
  }

  lemma ComponentsOfRange(r: RawRange)
    requires r.Valid()
    ensures Components(r.Text()) == (LowerClock(r.start), LowerClock(r.end))
  {
    UnifiedRange(r);
    LowerClockInert(r.start);
    LowerClockInert(r.end);
    ComponentsOfJoined(LowerClock(r.start), LowerClock(r.end), r.Text());
  }

  /** On every range the timetable patterns capture, `normalizeTime` gives
      the canonical text of the reference records: each clock becomes
      `H:MM AM|PM` with the hour as parsed and the meridiem explicit or
      inferred by the rule table, and the two join with ` - `. */
  lemma NormalizeRange(r: RawRange)
    requires r.Valid()
    ensures NormalizeTime(r.Text()) == Some(Canonical(r))
  {
    ComponentsOfRange(r);
    ParseClock(r.start, None);
    var st := Record(r.start, None);
    ParseClock(r.end, Some(st));
  }

  // ------------------------------------------------------------ idempotence

  /** The lower-cased `full` text of a record with a non-negative hour. */
  function LowerFull(c: Clock): string
    requires c.hour.Num? && c.hour.v >= 0
  {
    NatToString(c.hour.v) + ":" + c.minute + " " + Lower(MeridiemText(c.ampm))
  }

  lemma LowerFullText(c: Clock)
    requires CanonicalClock(c)
    ensures Lower(Full(c)) == LowerFull(c)
  {
    var d := NatToString(c.hour.v) + ":" + c.minute;
    assert Plain(d);
    PlainFacts(d);
    LowerNoUpper(d + " ");
    LowerAppend(d + " ", MeridiemText(c.ampm));
  }

  lemma LowerFullInert(c: Clock)
    requires CanonicalClock(c)
    ensures Inert(LowerFull(c)) && '-' !in LowerFull(c)
    ensures !IsSpace(LowerFull(c)[0]) && !IsSpace(LowerFull(c)[|LowerFull(c)| - 1])
  {
    var d := NatToString(c.hour.v) + ":" + c.minute;
    var lm := Lower(MeridiemText(c.ampm));
    assert lm == "am" || lm == "pm";
    var s := LowerFull(c);
    assert s == d + " " + lm;
    assert Plain(d);
    PlainFacts(d);
    assert s[|d|] == ' ' && s[|d| + 1] == lm[0];
    forall i | 0 <= i < |s|
      ensures s[i] != 't' && s[i] != '-' && (IsSpace(s[i]) ==> i + 1 < |s| && !IsSpace(s[i + 1]))
    {
      if i < |d| {
        assert s[i] == d[i];
        if i + 1 < |d| { assert s[i + 1] == d[i + 1]; }
      } else if i > |d| {
        assert s[i] == lm[i - |d| - 1];
      }
    }
  }

  /** Re-parsing one printed clock gives back a record with the same text. */
  lemma ParseFull(c: Clock, ref: Option<Clock>)
    requires CanonicalClock(c)
    ensures ParseComponent(LowerFull(c), ref).Some?
    ensures Full(ParseComponent(LowerFull(c), ref).value) == Full(c)
  {
    var h := NatToString(c.hour.v);
    var lm := Lower(MeridiemText(c.ampm));
    assert lm == (if c.ampm == AM then "am" else "pm");
    assert LowerFull(c) == h + ":" + c.minute + " " + lm;
    ParseMarked(h, c.minute, " ", lm, ref);
    DecimalOfNatToString(c.hour.v);
  }

  /** `normalizeTime` is the identity on its own range output. */
  lemma NormalizeCanonicalRange(a: Clock, b: Clock)
    requires CanonicalClock(a) && CanonicalClock(b)
    ensures NormalizeTime(Full(a) + " - " + Full(b)) == Some(Full(a) + " - " + Full(b))
  {
    var raw := Full(a) + " - " + Full(b);
    LowerFullText(a);
    LowerFullText(b);
    LowerNoUpper(" - ");
    LowerAppend(Full(a) + " - ", Full(b));
    LowerAppend(Full(a), " - ");
    assert Lower(raw) == LowerFull(a) + " " + "-" + " " + LowerFull(b);
    LowerFullInert(a);
    LowerFullInert(b);
    UnifyRange(LowerFull(a), " ", "-", " ", LowerFull(b));
    ComponentsOfJoined(LowerFull(a), LowerFull(b), raw);
    ParseFull(a, None);
    var st := ParseComponent(LowerFull(a), None).value;
    ParseFull(b, Some(st));
  }

  /** `normalizeTime` is the identity on its single-clock output. */
  lemma NormalizeCanonicalClock(a: Clock)
    requires CanonicalClock(a)
    ensures NormalizeTime(Full(a)) == Some(Full(a))
  {
    LowerFullText(a);
    LowerFullInert(a);
    UnifyInert(LowerFull(a), []);
    assert LowerFull(a) + [] == LowerFull(a);
    SplitNone(LowerFull(a), '-');
    TrimNoOp(LowerFull(a));
    ParseFull(a, None);
  }

  lemma RecordCanonical(c: RawClock, start: Option<Clock>)
    requires c.Valid()
    ensures CanonicalClock(Record(c, start))
  {
  }

  /** Normalising a captured range twice gives the same text as once. */
  lemma NormalizeIdempotent(r: RawRange)
    requires r.Valid()
    ensures NormalizeTime(Canonical(r)) == Some(Canonical(r))
  {
    var st := Record(r.start, None);
    RecordCanonical(r.start, None);
    RecordCanonical(r.end, Some(st));
    NormalizeCanonicalRange(st, Record(r.end, Some(st)));
  }

  // --------------------------------------------------------------- sort key

  /** A record with a parsed hour below 100 and a two-digit minute: what
      a capture without a lone `m` resolves to. */
  predicate KeyedClock(c: Clock) {
    c.hour.Num? && 0 <= c.hour.v < 100 && |c.minute| == 2 && AllDigits(c.minute)
  }

  /** The leftmost clock the sort key finds in a printed record is that
      record's own hour, minute and meridiem. */
  lemma FindClockInFull(c: Clock)
    requires KeyedClock(c)
    ensures FindClock(Full(c), 0) == Some((c.hour.v, DecimalValue(c.minute), c.ampm))
  {
    var h := NatToString(c.hour.v);
    TwoDigitsAtMost(c.hour.v);
    DecimalOfNatToString(c.hour.v);
    var s := Full(c);
    var mt := MeridiemText(c.ampm);
    assert s == h + ":" + c.minute + " " + mt;
    var q := |h|;
    assert s[0] == h[0];
    if q == 2 { assert s[1] == h[1]; } else { assert s[1] == ':'; }
    assert s[..q] == h;
    assert s[q] == ':' && s[q + 1] == c.minute[0] && s[q + 2] == c.minute[1];
    assert s[q + 1..q + 3] == c.minute;
    assert s[q + 3] == ' ' && s[q + 4] == mt[0] && s[q + 5] == mt[1];
    SpanExact(s, q + 3, IsSpace, 1);
  }

  lemma NoDashInFull(c: Clock)
    requires CanonicalClock(c)
    ensures '-' !in Full(c)
  {
    LowerFullText(c);
    LowerFullInert(c);
    forall i | 0 <= i < |Full(c)| ensures Full(c)[i] != '-' {
      assert Lower(Full(c))[i] == LowerChar(Full(c)[i]);
    }
  }

  /** The start part `parseStartTimeForSorting` cuts from a printed range. */
  lemma StartPartOfRange(a: Clock, b: Clock)
    requires CanonicalClock(a)
    ensures Trim(Split(Full(a) + " - " + Full(b), '-')[0]) == Full(a)
  {
    var x := Full(a) + " ";
    var y := " " + Full(b);
    assert Full(a) + " - " + Full(b) == x + ['-'] + y;
    NoDashInFull(a);
    assert '-' !in x;
    SplitAt(x, '-', y);
    FullEnds(a);
    assert Trim(x) == Full(a) by {
      assert !IsSpace(x[0]);
      assert x[..|x| - 1] == Full(a);
    }
  }

  /** `parseStartTimeForSorting` on a printed range reads back the start's
      24-hour time in minutes. */
  lemma StartMinutesOfRange(a: Clock, b: Clock)
    requires KeyedClock(a) && CanonicalClock(b)
    ensures StartMinutes(Full(a) + " - " + Full(b)) == Hour24(a.hour, a.ampm).v * 60 + DecimalValue(a.minute)
  {
    StartPartOfRange(a, b);
    FindClockInFull(a);
  }

  /** `parseStartTimeForSorting` on a printed single clock. */
  lemma StartMinutesOfClock(a: Clock)
    requires KeyedClock(a)
    ensures StartMinutes(Full(a)) == Hour24(a.hour, a.ampm).v * 60 + DecimalValue(a.minute)
  {
    NoDashInFull(a);
    SplitNone(Full(a), '-');
    FullEnds(a);
    TrimNoOp(Full(a));
    FindClockInFull(a);
  }

  lemma FullEnds(c: Clock)
    requires CanonicalClock(c)
    ensures !IsSpace(Full(c)[0]) && !IsSpace(Full(c)[|Full(c)| - 1])
  {
    var h := NatToString(c.hour.v);
    assert Full(c)[0] == h[0];
  }

  /** For a 12-hour clock the sort key is a minute of the day. */
  lemma StartMinutesBound(a: Clock, b: Clock)
    requires KeyedClock(a) && CanonicalClock(b)
    requires 1 <= a.hour.v <= 12 && DecimalValue(a.minute) <= 59
    ensures 0 <= StartMinutes(Full(a) + " - " + Full(b)) <= 1439
  {
    StartMinutesOfRange(a, b);
  }

  /** The sort key of a normalised range whose start capture has no lone
      `m` is the start's 24-hour time in minutes. */
  lemma StartMinutesOfCanonical(r: RawRange)
    requires r.Valid() && r.start.marker != "m" && r.start.marker != "M"
    ensures var st := Record(r.start, None);
            StartMinutes(Canonical(r)) == Hour24(st.hour, st.ampm).v * 60 + DecimalValue(r.start.minute)
  {
    var st := Record(r.start, None);
    RecordCanonical(r.end, Some(st));
    TwoDigitsValue(r.start.hour);
    StartMinutesOfRange(st, Record(r.end, Some(st)));
  }

  /** A record whose minute text kept a lone `m`: what a capture with a
      lone `m` marker resolves to. */
  predicate LoneMClock(c: Clock) {
    && c.hour.Num? && 0 <= c.hour.v < 100
    && |c.minute| == 3 && IsDigit(c.minute[0]) && IsDigit(c.minute[1]) && c.minute[2] == 'm'
  }

  /** The characters of a printed lone-`m` record: the hour digits up to
      `q`, `:`, two digits, `m`, a space and the meridiem. */
  lemma LoneMChars(c: Clock)
    requires LoneMClock(c)
    ensures var s, q := Full(c), |NatToString(c.hour.v)|;
            1 <= q <= 2 && |s| == q + 7 && (forall i :: 0 <= i < q ==> IsDigit(s[i])) &&
            s[q] == ':' && IsDigit(s[q + 1]) && IsDigit(s[q + 2]) && s[q + 3] == 'm' &&
            s[q + 4] == ' ' && s[q + 5] in "AP" && s[q + 6] == 'M'
  {
    var h := NatToString(c.hour.v);
    TwoDigitsAtMost(c.hour.v);
    var s := Full(c);
    var mt := MeridiemText(c.ampm);
    assert s == h + ":" + c.minute + " " + mt;
    forall i | 0 <= i < |h| ensures IsDigit(s[i]) {
      assert s[i] == h[i];
    }
  }

  /** In such text no clock followed by `AM` or `PM` starts anywhere: the
      only `hh:mm` is followed by `m`. */
  lemma NoClockInLoneM(s: string, q: nat)
    requires 1 <= q <= 2 && |s| == q + 7 && (forall i :: 0 <= i < q ==> IsDigit(s[i]))
    requires s[q] == ':' && IsDigit(s[q + 1]) && IsDigit(s[q + 2]) && s[q + 3] == 'm'
    requires s[q + 4] == ' ' && s[q + 5] in "AP" && s[q + 6] == 'M'
    ensures forall p :: 0 <= p <= |s| ==> ClockAt(s, p).None?
  {
    assert Span(s, q + 3, IsSpace) == 0;
    forall p | 0 <= p <= |s| ensures ClockAt(s, p).None? {
      if p < q {
        assert IsDigit(s[p]);
      } else if p == q + 1 || p == q + 2 {
        assert !IsDigit(s[q + 3]);
      }
    }
  }

  lemma {:induction false} FindClockNone(s: string, p: nat)
    requires p <= |s| && forall k :: p <= k <= |s| ==> ClockAt(s, k).None?
    ensures FindClock(s, p).None?
    decreases |s| - p
  {
    if p < |s| {
      FindClockNone(s, p + 1);
    }
  }

  /** `parseStartTimeForSorting` finds no clock in a printed range whose
      start kept a lone `m`, and gives 0. */
  lemma StartMinutesLoneM(a: Clock, b: Clock)
    requires LoneMClock(a) && CanonicalClock(b)
    ensures StartMinutes(Full(a) + " - " + Full(b)) == 0
  {
    StartPartOfRange(a, b);
    NoClockInFull(a);
  }

  lemma NoClockInFull(a: Clock)
    requires LoneMClock(a)
    ensures FindClock(Full(a), 0).None?
  {
    LoneMChars(a);
    NoClockInLoneM(Full(a), |NatToString(a.hour.v)|);
    FindClockNone(Full(a), 0);
  }

  /** The sort key of every normalised captured range: the start's minute
      of the day, or 0 when the start capture has a lone `m` marker. */
  lemma StartMinutesOfCapture(r: RawRange)
    requires r.Valid()
    ensures var st := Record(r.start, None);
            StartMinutes(Canonical(r)) ==
              if r.start.marker == "m" || r.start.marker == "M" then 0
              else Hour24(st.hour, st.ampm).v * 60 + DecimalValue(r.start.minute)
  {
    var st := Record(r.start, None);
    if r.start.marker == "m" || r.start.marker == "M" {
      RecordCanonical(r.end, Some(st));
      TwoDigitsValue(r.start.hour);
      StartMinutesLoneM(st, Record(r.end, Some(st)));
    } else {
      StartMinutesOfCanonical(r);
    }
  }

  lemma TwoDigitsValue(s: string)
    requires 1 <= |s| <= 2 && AllDigits(s)
    ensures DecimalValue(s) < 100
  {
    var init := s[..|s| - 1];
    if |s| == 2 {
      assert init[..0] == [];
      assert DecimalValue(init) == DigitValue(init[0]);
    } else {
      assert init == [];
    }
  }
}
