/** The chain `processFiles` (script.js:16-31) runs on the two extracted
    texts: timetable entries, registered codes, their match, and, when the
    match is not empty, the grouped schedule it stores. */
module Pipeline {
  import opened Text
  import opened Time
  import opened Timetable
  import opened TimetableProps
  import opened Registration
  import opened Matching
  import opened Grouping

  /** The schedule stored after processing: `None` when no timetable entry
      has a registered code (the stored schedule is cleared). */
  function Schedule(timetableText: string, coursesText: string): Option<map<string, seq<Entry>>> {
    ScheduleOf(TimetableEntries(timetableText), RegisteredCodes(coursesText))
  }

  /** The grouped match of timetable entries and registered codes. */
  function ScheduleOf(entries: seq<Entry>, codes: seq<string>): Option<map<string, seq<Entry>>> {
    var matched := MatchCourses(entries, codes);
    if |matched| == 0 then None else Some(Grouped(matched))
  }

  /** A stored schedule holds, bucket by bucket, exactly the given entries
      of that day whose code is registered, in order of start time, and
      every such entry is in the bucket of its day. */
  lemma ScheduleBuckets(entries: seq<Entry>, codes: seq<string>)
    requires ScheduleOf(entries, codes).Some?
    ensures var g := ScheduleOf(entries, codes).value;
            && g != map[]
            && (forall e :: e in entries && e.code in codes ==> e.day in g && e in g[e.day])
            && (forall d, e :: d in g && e in g[d] ==> e.day == d && e in entries && e.code in codes)
            && (forall d, i, j :: d in g && 0 <= i < j < |g[d]| ==>
                  StartMinutes(g[d][i].time) <= StartMinutes(g[d][j].time))
  {
    var matched := MatchCourses(entries, codes);
    MatchSpec(entries, codes);
    var g: map<string, seq<Entry>> := Grouped(matched);
    GroupedKeys(matched);
    assert matched[0].day in g;
    forall d: string | d in g
      ensures forall e: Entry :: e in g[d] ==> e.day == d && e in matched
      ensures forall i, j :: 0 <= i < j < |g[d]| ==> StartMinutes(g[d][i].time) <= StartMinutes(g[d][j].time)
    {
      GroupedBucket(matched, d);
      GroupedSorted(matched, d);
    }
    forall e: Entry | e in entries && e.code in codes ensures e.day in g && e in g[e.day] {
      assert e in matched;
      GroupedBucket(matched, e.day);
    }
  }

  /** Nothing is stored exactly when no entry has a registered code. */
  lemma ScheduleNone(entries: seq<Entry>, codes: seq<string>)
    ensures ScheduleOf(entries, codes).None? <==> forall e :: e in entries ==> e.code !in codes
  {
    MatchSpec(entries, codes);
    var matched := MatchCourses(entries, codes);
    if |matched| != 0 {
      assert matched[0] in matched;
    }
  }

  /** Every entry of a schedule stored from two texts is well formed, with
      "Unknown" as the day before any heading. */
  lemma ScheduleWellFormed(timetableText: string, coursesText: string)
    requires Schedule(timetableText, coursesText).Some?
    ensures var g := Schedule(timetableText, coursesText).value;
            forall d, e :: d in g && e in g[d] ==> WellFormed(UnknownDay, e)
  {
    var entries := TimetableEntries(timetableText);
    TimetableWellFormed(timetableText);
    ScheduleBuckets(entries, RegisteredCodes(coursesText));
  }
}
