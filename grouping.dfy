/** `groupCoursesByDay` (script.js:241-255): the matched entries bucketed
    by their day, in an object keyed by day, each bucket then sorted by the
    start time of its entries in minutes since midnight. The comparator
    `(a, b) => start(a) - start(b)` is a numeric difference, so entries with
    the same start time are ties, and the stable sort keeps them in the
    order in which they were matched. */
module Grouping {
  import opened Time
  import opened Timetable
  import opened Sorting

  /** The comparator as the relation "a sorts no later than b". */
  function ByStart(): (Entry, Entry) -> bool {
    (x: Entry, y: Entry) => StartMinutes(x.time) <= StartMinutes(y.time)
  }

  lemma ByStartOrder()
    ensures TotalPreorder(ByStart())
  {
  }

  /** The entries of `day`, in the order given. */
  function OnDay(entries: seq<Entry>, day: string): (r: seq<Entry>)
    ensures forall e :: e in r <==> e in entries && e.day == day
    decreases |entries|
  {
    if entries == [] then []
    else
      var last := entries[|entries| - 1];
      assert entries == entries[..|entries| - 1] + [last];
      OnDay(entries[..|entries| - 1], day) + (if last.day == day then [last] else [])
  }

  /** Each entry of `day` is kept as often as it occurs, and no other. */
  lemma {:induction false} OnDayCount(entries: seq<Entry>, day: string)
    ensures forall e :: multiset(OnDay(entries, day))[e] == if e.day == day then multiset(entries)[e] else 0
    decreases |entries|
  {
    if entries != [] {
      var n := |entries| - 1;
      OnDayCount(entries[..n], day);
      assert entries == entries[..n] + [entries[n]];
    }
  }

  /** A day no entry carries has no entries. */
  lemma {:induction false} OnDayAbsent(entries: seq<Entry>, day: string)
    requires forall e :: e in entries ==> e.day != day
    ensures OnDay(entries, day) == []
    decreases |entries|
  {
    if entries != [] {
      OnDayAbsent(entries[..|entries| - 1], day);
      assert entries[|entries| - 1] in entries;
    }
  }

  /** The days the entries carry: the keys of `groupedByDay`. */
  function Days(entries: seq<Entry>): set<string> {
    set e | e in entries :: e.day
  }

  /** `groupedByDay` after the `forEach`: each entry in turn is pushed
      onto the bucket of its day, which is created empty if missing. */
  function Buckets(entries: seq<Entry>): map<string, seq<Entry>>
    decreases |entries|
  {
    if entries == [] then map[]
    else
      var b := Buckets(entries[..|entries| - 1]);
      var course := entries[|entries| - 1];
      b[course.day := (if course.day in b then b[course.day] else []) + [course]]
  }

  /** `groupedByDay` as returned: every bucket sorted by start time. */
  function Grouped(entries: seq<Entry>): map<string, seq<Entry>> {
    map d | d in Days(entries) :: Sort(OnDay(entries, d), ByStart())
  }

  /** After the `forEach` there is a bucket for each day the entries carry,
      holding exactly that day's entries in the order given. */
  lemma {:induction false} BucketsByDay(entries: seq<Entry>)
    ensures Buckets(entries).Keys == Days(entries)
    ensures forall d :: d in Buckets(entries) ==> Buckets(entries)[d] == OnDay(entries, d)
    decreases |entries|
  {
    if entries != [] {
      var p := entries[..|entries| - 1];
      var course := entries[|entries| - 1];
      BucketsByDay(p);
      assert entries == p + [course];
      assert Days(entries) == Days(p) + {course.day};
      if course.day !in Buckets(p) {
        OnDayAbsent(p, course.day);
      }
    }
  }

  /** A map with a bucket for each day of `entries`, holding that day's
      entries sorted by start time, is the grouped schedule. */
  lemma GroupedIs(entries: seq<Entry>, g: map<string, seq<Entry>>)
    requires g.Keys == Days(entries)
    requires forall d :: d in g ==> g[d] == Sort(OnDay(entries, d), ByStart())
    ensures g == Grouped(entries)
  {
  }

  /** Partway through the sorting loop: `g` has the keys of `buckets`, the
      buckets of the days still `pending` are untouched, and the others are
      sorted. */
  predicate SortedOutside(buckets: map<string, seq<Entry>>, g: map<string, seq<Entry>>, pending: set<string>) {
    && pending <= buckets.Keys
    && g.Keys == buckets.Keys
    && forall d :: d in buckets ==> g[d] == if d in pending then buckets[d] else Sort(buckets[d], ByStart())
  }

  lemma SortOne(buckets: map<string, seq<Entry>>, g: map<string, seq<Entry>>, pending: set<string>, day: string)
    requires SortedOutside(buckets, g, pending) && day in pending
    ensures SortedOutside(buckets, g[day := Sort(g[day], ByStart())], pending - {day})
  {
  }

  /** `groupCoursesByDay`: bucket the entries, then sort each bucket in
      place by start time. */
  method GroupCoursesByDay(matchedCourses: seq<Entry>) returns (groupedByDay: map<string, seq<Entry>>)
    ensures groupedByDay == Grouped(matchedCourses)
  {
    groupedByDay := map[];
    for i := 0 to |matchedCourses|
      invariant groupedByDay == Buckets(matchedCourses[..i])
    {
      var course := matchedCourses[i];
      assert matchedCourses[..i + 1][..i] == matchedCourses[..i];
      if course.day !in groupedByDay {
        groupedByDay := groupedByDay[course.day := []];
      }
      groupedByDay := groupedByDay[course.day := groupedByDay[course.day] + [course]];
    }
    assert matchedCourses[..|matchedCourses|] == matchedCourses;
    ghost var buckets := groupedByDay;
    var pending := groupedByDay.Keys;
    while pending != {}
      invariant SortedOutside(buckets, groupedByDay, pending)
      decreases |pending|
    {
      var day :| day in pending;
      SortOne(buckets, groupedByDay, pending, day);
      groupedByDay := groupedByDay[day := Sort(groupedByDay[day], ByStart())];
      pending := pending - {day};
    }
    BucketsByDay(matchedCourses);
    GroupedIs(matchedCourses, groupedByDay);
  }

  // ------------------------------------------------------------ properties

  /** There is a bucket for a day exactly when some entry carries that day,
      and no bucket is empty. */
  lemma GroupedKeys(entries: seq<Entry>)
    ensures forall d :: d in Grouped(entries) <==> exists e :: e in entries && e.day == d
    ensures forall d :: d in Grouped(entries) ==> Grouped(entries)[d] != []
  {
    forall d | d in Grouped(entries) ensures Grouped(entries)[d] != [] {
      var e :| e in entries && e.day == d;
      assert e in OnDay(entries, d);
      assert multiset(Grouped(entries)[d]) == multiset(OnDay(entries, d));
    }
  }

  /** A day's bucket holds exactly the entries of that day, each as often as
      it occurs in the input: every entry is in its own day's bucket and in
      no other. */
  lemma GroupedBucket(entries: seq<Entry>, d: string)
    requires d in Grouped(entries)
    ensures forall e :: multiset(Grouped(entries)[d])[e] == if e.day == d then multiset(entries)[e] else 0
    ensures forall e :: e in Grouped(entries)[d] <==> e in entries && e.day == d
  {
    OnDayCount(entries, d);
    forall e ensures e in Grouped(entries)[d] <==> e in entries && e.day == d {
      assert e in Grouped(entries)[d] <==> multiset(Grouped(entries)[d])[e] > 0;
      assert e in entries <==> multiset(entries)[e] > 0;
    }
  }

  /** Each bucket is in order of start time, and entries of a bucket with
      the same start time keep the order in which they were given. */
  lemma GroupedSorted(entries: seq<Entry>, d: string)
    requires d in Grouped(entries)
    ensures var g := Grouped(entries)[d];
            && (forall i, j :: 0 <= i < j < |g| ==> StartMinutes(g[i].time) <= StartMinutes(g[j].time))
            && (forall k :: Class(g, k, ByStart()) == Class(OnDay(entries, d), k, ByStart()))
  {
    ByStartOrder();
    SortSorted(OnDay(entries, d), ByStart());
    forall k ensures Class(Grouped(entries)[d], k, ByStart()) == Class(OnDay(entries, d), k, ByStart()) {
      SortStable(OnDay(entries, d), k, ByStart());
    }
  }

  /** Any arrangement of a day's entries in order of start time that keeps
      the given order among equal start times is that day's bucket. */
  lemma GroupedUnique(entries: seq<Entry>, d: string, r: seq<Entry>)
    requires d in Grouped(entries)
    requires multiset(r) == multiset(OnDay(entries, d))
    requires forall i, j :: 0 <= i < j < |r| ==> StartMinutes(r[i].time) <= StartMinutes(r[j].time)
    requires forall k :: Class(r, k, ByStart()) == Class(OnDay(entries, d), k, ByStart())
    ensures r == Grouped(entries)[d]
  {
    ByStartOrder();
    SortUnique(r, OnDay(entries, d), ByStart());
  }

  // ----------------------------------------------------------- the total

  /** The buckets of the days in `order`, one after another, as a display
      walks them. */
  function Listing(g: map<string, seq<Entry>>, order: seq<string>): (r: seq<Entry>)
    ensures forall e :: e in r ==> exists d :: d in order && d in g && e in g[d]
    decreases |order|
  {
    if order == [] then []
    else
      var d := order[|order| - 1];
      Listing(g, order[..|order| - 1]) + (if d in g then g[d] else [])
  }

  predicate Distinct(order: seq<string>) {
    forall i, j :: 0 <= i < j < |order| ==> order[i] != order[j]
  }

  lemma {:induction false} ListingCount(entries: seq<Entry>, order: seq<string>)
    requires Distinct(order)
    ensures forall e :: multiset(Listing(Grouped(entries), order))[e] ==
                          if e.day in order then multiset(entries)[e] else 0
    decreases |order|
  {
    if order != [] {
      var g := Grouped(entries);
      var n := |order| - 1;
      var d := order[n];
      var init := order[..n];
      ListingCount(entries, init);
      assert order == init + [d];
      assert d !in init;
      forall e ensures multiset(Listing(g, order))[e] == if e.day in order then multiset(entries)[e] else 0 {
        assert e.day in order <==> e.day in init || e.day == d;
        if d in g {
          GroupedBucket(entries, d);
        } else if e.day == d {
          assert e !in entries;
        }
      }
    }
  }

  /** Walking the buckets of a list of distinct days that covers every day
      gives back the input entries, each as often as it occurred: grouping
      loses and invents no entry, so the total count is kept. */
  lemma GroupedTotal(entries: seq<Entry>, order: seq<string>)
    requires Distinct(order)
    requires forall e :: e in entries ==> e.day in order
    ensures multiset(Listing(Grouped(entries), order)) == multiset(entries)
    ensures |Listing(Grouped(entries), order)| == |entries|
  {
    ListingCount(entries, order);
    var l := Listing(Grouped(entries), order);
    forall e ensures multiset(l)[e] == multiset(entries)[e] {
      if e.day !in order {
        assert e !in entries;
      }
    }
    assert multiset(l) == multiset(entries);
    assert |l| == |multiset(l)| == |multiset(entries)| == |entries|;
  }
}
