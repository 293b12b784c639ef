/** The time normaliser (`normalizeTime` with its inner
    `parseAndFormatTimeComponent`) and the sort key read back from its
    output (`parseStartTimeForSorting`). */
module Time {
  import opened Text

  datatype Meridiem = AM | PM

  function MeridiemText(m: Meridiem): string {
    if m == AM then "AM" else "PM"
  }

  /** The record `parseAndFormatTimeComponent` returns: the parsed 12-hour
      hour, the minute text, the resolved meridiem and the 24-hour hour. */
  datatype Clock = Clock(hour: JsNum, minute: string, ampm: Meridiem, hour24: JsNum)

  /** The record's `full` field: `${hour}:${minuteStr} ${ampm}`. */
  function Full(c: Clock): string {
    JsNumToString(c.hour) + ":" + c.minute + " " + MeridiemText(c.ampm)
  }

  // ------------------------------------------ JavaScript comparisons on numbers

  /** Truthiness of a number: NaN and 0 are falsy. */
  predicate Truthy(x: JsNum) { x.Num? && x.v != 0 }

  /** `x === n`. */
  predicate Is(x: JsNum, n: int) { x.Num? && x.v == n }

  /** `x < y`, false when either side is NaN. */
  predicate Less(x: JsNum, y: JsNum) { x.Num? && y.Num? && x.v < y.v }

  /** `x <= n`, false for NaN. */
  predicate AtMost(x: JsNum, n: int) { x.Num? && x.v <= n }

  // ------------------------------------------------------ meridiem inference

  /** Inference for a component with no marker and no reference start
      (script.js:199-204): only the hours 7 to 11 are morning. */
  function StartMeridiem(hour: JsNum): (m: Meridiem)
    ensures m == AM <==> hour.Num? && 7 <= hour.v <= 11
  {
    if Is(hour, 12) then PM
    else if hour.Num? && 7 <= hour.v <= 11 then AM
    else if hour.Num? && 1 <= hour.v <= 6 then PM
    else PM
  }

  /** Inference for an end component with no marker, given the start's
      resolved record (script.js:187-195). The end takes the start's
      meridiem unless it is 12, or an hour of at most 6 below the start's
      24-hour hour, which must be truthy (so never after a 12 AM start). */
  function EndMeridiem(hour: JsNum, start: Clock): (m: Meridiem)
    ensures m != start.ampm <==>
              Is(hour, 12) || (Truthy(start.hour24) && Less(hour, start.hour24) && AtMost(hour, 6))
  {
    match start.ampm
    case AM =>
      if Is(hour, 12) then PM
      else if Truthy(start.hour24) && Less(hour, start.hour24) && AtMost(hour, 6) then PM
      else AM
    case PM =>
      if Is(hour, 12) then AM
      else if Truthy(start.hour24) && Less(hour, start.hour24) && AtMost(hour, 6) then AM
      else PM
  }

  /** The 24-hour hour (script.js:207-209): 12 AM is 0, a PM hour below 12
      gains 12, anything else is kept. */
  function Hour24(hour: JsNum, ampm: Meridiem): (h: JsNum)
    ensures hour.NaN? <==> h.NaN?
    ensures hour.Num? && 1 <= hour.v <= 12 ==>
              0 <= h.v <= 23 && h.v % 12 == hour.v % 12 && (h.v >= 12 <==> ampm == PM)
  {
    match ampm
    case AM => if Is(hour, 12) then Num(0) else hour
    case PM => if hour.Num? && hour.v < 12 then Num(hour.v + 12) else hour
  }

  // ------------------------------------------------- one component of a range

  /** `component.replace(/am?/, '')` (or `/pm?/`): drop the first marker
      letter and an `m` right after it. */
  function DropMarker(s: string, letter: char): string
    requires letter in s
  {
    var i := IndexOf(s, letter);
    var j := if i + 1 < |s| && s[i + 1] == 'm' then i + 2 else i + 1;
    s[..i] + s[j..]
  }

  /** Marker detection (script.js:168-175): an `a` anywhere means AM and
      drops the first `a` with an `m` after it, otherwise a `p` means PM;
      the rest is trimmed. */
  function StripMarker(comp: string): (Option<Meridiem>, string) {
    if 'a' in comp then (Some(AM), Trim(DropMarker(comp, 'a')))
    else if 'p' in comp then (Some(PM), Trim(DropMarker(comp, 'p')))
    else (None, Trim(comp))
  }

  /** Hour and minute texts (script.js:177-182): the first two `:` pieces
      with the minute padded to two characters, or the whole text as the
      hour and minute `00`. */
  function SplitClock(t: string): (string, string) {
    if ':' in t then
      var pieces := Split(t, ':');
      (pieces[0], PadStart(pieces[1], 2, '0'))
    else (t, "00")
  }

  /** The meridiem (script.js:186-205): an explicit marker wins, otherwise
      the end rule with a start record, the start rule without one. */
  function Resolve(marker: Option<Meridiem>, hour: JsNum, start: Option<Clock>): (m: Meridiem)
    ensures marker.Some? ==> m == marker.value
    ensures marker.None? && start.None? ==> m == StartMeridiem(hour)
  {
    match marker
    case Some(m) => m
    case None => if start.Some? then EndMeridiem(hour, start.value) else StartMeridiem(hour)
  }

  /** `parseAndFormatTimeComponent` (script.js:162-212); `start` is the
      start's record when an end component is parsed. None is the `null`
      it returns for an empty component. */
  function ParseComponent(comp: string, start: Option<Clock>): (r: Option<Clock>)
    ensures r.Some? <==> comp != []
    ensures r.Some? && 'a' in comp ==> r.value.ampm == AM
    ensures r.Some? && 'a' !in comp && 'p' in comp ==> r.value.ampm == PM
    ensures r.Some? ==> r.value.hour24 == Hour24(r.value.hour, r.value.ampm)
  {
    if comp == [] then None
    else
      var (marker, t) := StripMarker(comp);
      var (hourStr, minuteStr) := SplitClock(t);
      var hour := ParseInt(hourStr);
      var ampm := Resolve(marker, hour, start);
      Some(Clock(hour, minuteStr, ampm, Hour24(hour, ampm)))
  }

  // -------------------------------------------------------------- the range

  // The global replacement of script.js:156: at each position, a run of
  // white space, then `to` or `-`, then white space, becomes one `-`.
  function UnifySeparators(s: string): string
    decreases |s|
  {
    if s == [] then []
    else
      var w := Span(s, 0, IsSpace);
      if w + 2 <= |s| && s[w] == 't' && s[w + 1] == 'o' then
        var e := w + 2 + Span(s, w + 2, IsSpace);
        "-" + UnifySeparators(s[e..])
      else if w < |s| && s[w] == '-' then
        var e := w + 1 + Span(s, w + 1, IsSpace);
        "-" + UnifySeparators(s[e..])
      else
        [s[0]] + UnifySeparators(s[1..])
  }

  /** The start and end components `normalizeTime` cuts out of its input,
      after lower-casing, unifying separators, splitting on `-` and
      trimming (script.js:155-160); an absent end is the empty string. */
  function Components(raw: string): (string, string) {
    var parts := Split(UnifySeparators(Lower(raw)), '-');
    (Trim(parts[0]), if |parts| > 1 then Trim(parts[1]) else "")
  }

  /** `normalizeTime` (script.js:152-224). None stands for the TypeError
      raised when the start component is empty. */
  function NormalizeTime(raw: string): (r: Option<string>)
    ensures r.None? <==> Components(raw).0 == []
  {
    var (startRaw, endRaw) := Components(raw);
    match ParseComponent(startRaw, None)
    case None => None
    case Some(st) =>
      if endRaw == [] then Some(Full(st))
      else Some(Full(st) + " - " + Full(ParseComponent(endRaw, Some(st)).value))
  }

  // ------------------------------------------------------------ sort key

  /** Leftmost match of `(\d{1,2}):(\d{2})\s*(AM|PM)` with the `i` flag at
      `p`: hour, minute and meridiem. Two leading digits force the
      two-digit hour, since giving one back leaves a digit where `:` is
      needed. */
  function ClockAt(s: string, p: nat): Option<(nat, nat, Meridiem)>
    requires p <= |s|
  {
    if p == |s| || !IsDigit(s[p]) then None
    else
      var q := if p + 1 < |s| && IsDigit(s[p + 1]) then p + 2 else p + 1;
      if q + 3 > |s| || s[q] != ':' || !IsDigit(s[q + 1]) || !IsDigit(s[q + 2]) then None
      else
        var r := q + 3 + Span(s, q + 3, IsSpace);
        if r + 2 <= |s| && s[r] in "AaPp" && s[r + 1] in "Mm" then
          Some((DecimalValue(s[p..q]), DecimalValue(s[q + 1..q + 3]), if s[r] in "Aa" then AM else PM))
        else None
  }

  function FindClock(s: string, p: nat): Option<(nat, nat, Meridiem)>
    requires p <= |s|
    decreases |s| - p
  {
    match ClockAt(s, p)
    case Some(c) => Some(c)
    case None => if p == |s| then None else FindClock(s, p + 1)
  }

  /** `parseStartTimeForSorting` (script.js:226-239): minutes since midnight
      of the first clock time before the first `-`, or 0 when there is
      none. */
  function StartMinutes(time: string): nat {
    var startPart := Trim(Split(time, '-')[0]);
    match FindClock(startPart, 0)
    case None => 0
    case Some((h, m, ampm)) =>
      var hours := if ampm == PM && h < 12 then h + 12 else if ampm == AM && h == 12 then 0 else h;
      hours * 60 + m
  }
}
