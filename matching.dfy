/** `matchCourses` (script.js:295-308): the timetable entries whose code is
    registered, ordered by their time text. The order `localeCompare`
    gives is taken to be the lexicographic order of the strings under the
    character weights of the root collation's primary order;
    `Array.prototype.sort` is stable, so entries with equal time texts keep
    their timetable order. */
module Matching {
  import opened Text
  import opened Timetable
  import opened Sorting

  // ------------------------------------------------------ the time order

  /** The place of a character in the order `localeCompare` uses, after
      the primary order of the Unicode root collation: white space, then
      `-`, then `:`, then other punctuation and symbols, then digits, then
      letters alphabetically, lower case before upper case. Each class
      occupies its own band of weights, so no two characters share one. */
  function Weight(c: char): int {
    var n := c as int;
    if IsSpace(c) then n
    else if c == '-' then Band
    else if c == ':' then Band + 1
    else if IsDigit(c) then 3 * Band + n
    else if IsLetter(c) then 4 * Band + 2 * (LowerChar(c) as int) + (if IsUpper(c) then 1 else 0)
    else 2 * Band + n
  }

  /** One more than the largest code point. */
  const Band := 0x11_0000

  /** Different characters have different weights. */
  lemma WeightInjective(x: char, y: char)
    requires Weight(x) == Weight(y)
    ensures x == y
  {
    if IsLetter(x) && IsLetter(y) {
      assert (IsUpper(x) <==> IsUpper(y)) by {
        assert Weight(x) % 2 == (if IsUpper(x) then 1 else 0);
        assert Weight(y) % 2 == (if IsUpper(y) then 1 else 0);
      }
    }
  }

  /** `a.localeCompare(b) <= 0`: `a` is a prefix of `b`, or at the first
      difference `a` has the character of smaller weight. */
  predicate TextLe(a: string, b: string)
    decreases |a|
  {
    a == [] || (b != [] && (Weight(a[0]) < Weight(b[0]) || (a[0] == b[0] && TextLe(a[1..], b[1..]))))
  }

  lemma {:induction false} TextLeTotal(a: string, b: string)
    ensures TextLe(a, b) || TextLe(b, a)
    decreases |a|
  {
    if a != [] && b != [] {
      if a[0] == b[0] {
        TextLeTotal(a[1..], b[1..]);
      } else if Weight(a[0]) == Weight(b[0]) {
        WeightInjective(a[0], b[0]);
      }
    }
  }

  lemma {:induction false} TextLeTransitive(a: string, b: string, c: string)
    requires TextLe(a, b) && TextLe(b, c)
    ensures TextLe(a, c)
    decreases |a|
  {
    if a != [] && a[0] == b[0] && b[0] == c[0] {
      TextLeTransitive(a[1..], b[1..], c[1..]);
    }
  }

  /** Two strings that each sort no later than the other are equal. */
  lemma {:induction false} TextLeAntisymmetric(a: string, b: string)
    requires TextLe(a, b) && TextLe(b, a)
    ensures a == b
    decreases |a|
  {
    if a != [] {
      TextLeAntisymmetric(a[1..], b[1..]);
      assert a == [a[0]] + a[1..] && b == [b[0]] + b[1..];
    }
  }

  /** Texts that agree up to `p` and differ there are ordered by the
      weights of their characters at `p`. */
  lemma {:induction false} TextLeAt(a: string, b: string, p: nat)
    requires p < |a| && p < |b| && a[..p] == b[..p] && Weight(a[p]) < Weight(b[p])
    ensures TextLe(a, b) && !TextLe(b, a)
    decreases p
  {
    if p > 0 {
      assert a[0] == a[..p][0] == b[..p][0] == b[0];
      assert a[1..][..p - 1] == a[..p][1..] == b[..p][1..] == b[1..][..p - 1];
      TextLeAt(a[1..], b[1..], p - 1);
    }
  }

  /** A colon sorts before a digit, so a one-digit start hour sorts
      before a two-digit one with the same first digit. */
  lemma OneDigitHourFirst()
    ensures TextLe("1:00 PM - 3:00 PM", "10:00 AM - 12:00 PM")
    ensures !TextLe("10:00 AM - 12:00 PM", "1:00 PM - 3:00 PM")
  {
    var a, b := "1:00 PM - 3:00 PM", "10:00 AM - 12:00 PM";
    assert a[..1] == b[..1] && a[1] == ':' && b[1] == '0';
    TextLeAt(a, b, 1);
  }

  /** Between equal starts, an end at 1 PM sorts before an end at 12 PM. */
  lemma OneDigitEndFirst()
    ensures TextLe("10:00 AM - " + "1:00 PM", "10:00 AM - " + "12:00 PM")
    ensures !TextLe("10:00 AM - " + "12:00 PM", "10:00 AM - " + "1:00 PM")
  {
    var x, y := "1:00 PM", "12:00 PM";
    assert x[..1] == y[..1] && x[1] == ':' && y[1] == '2';
    TextLeAt(x, y, 1);
    TextLePrefix("10:00 AM - ", x, y);
    TextLePrefix("10:00 AM - ", y, x);
  }

  /** A common prefix does not change the order. */
  lemma {:induction false} TextLePrefix(c: string, x: string, y: string)
    ensures TextLe(c + x, c + y) <==> TextLe(x, y)
    decreases |c|
  {
    if c == [] {
      assert c + x == x && c + y == y;
    } else {
      assert (c + x)[0] == c[0] == (c + y)[0];
      assert (c + x)[1..] == c[1..] + x && (c + y)[1..] == c[1..] + y;
      TextLePrefix(c[1..], x, y);
    }
  }

  /** The comparator `(a, b) => a.time.localeCompare(b.time)` as the
      relation "a sorts no later than b". */
  function ByTime(): (Entry, Entry) -> bool {
    (x: Entry, y: Entry) => TextLe(x.time, y.time)
  }

  lemma ByTimeOrder()
    ensures TotalPreorder(ByTime())
  {
    forall a: Entry, b: Entry ensures ByTime()(a, b) || ByTime()(b, a) {
      TextLeTotal(a.time, b.time);
    }
    forall a: Entry, b: Entry, c: Entry | ByTime()(a, b) && ByTime()(b, c) ensures ByTime()(a, c) {
      TextLeTransitive(a.time, b.time, c.time);
    }
  }

  // ------------------------------------------------------------- filter

  /** `timetable.filter(entry => courseSet.has(entry.code))`. */
  function Registered(timetable: seq<Entry>, courses: seq<string>): (r: seq<Entry>)
    ensures |r| <= |timetable|
    decreases |timetable|
  {
    if timetable == [] then []
    else
      var last := timetable[|timetable| - 1];
      Registered(timetable[..|timetable| - 1], courses) + (if last.code in courses then [last] else [])
  }

  /** The filter keeps every entry with a registered code as often as it
      occurs, and no other entry. */
  lemma {:induction false} RegisteredCount(timetable: seq<Entry>, courses: seq<string>)
    ensures forall e :: multiset(Registered(timetable, courses))[e] ==
                          if e.code in courses then multiset(timetable)[e] else 0
    decreases |timetable|
  {
    if timetable != [] {
      var n := |timetable| - 1;
      RegisteredCount(timetable[..n], courses);
      assert timetable == timetable[..n] + [timetable[n]];
    }
  }

  // ---------------------------------------------------------- the match

  /** `matchCourses(timetable, courses)`. */
  function MatchCourses(timetable: seq<Entry>, courses: seq<string>): seq<Entry> {
    Sort(Registered(timetable, courses), ByTime())
  }

  /** An entry is matched exactly when it is in the timetable and its code
      is registered, as often as it occurs there; the matches are ordered
      by time text, and those with equal time texts keep timetable order. */
  lemma MatchSpec(timetable: seq<Entry>, courses: seq<string>)
    ensures var r := MatchCourses(timetable, courses);
            && (forall e :: multiset(r)[e] == if e.code in courses then multiset(timetable)[e] else 0)
            && (forall e :: e in r <==> e in timetable && e.code in courses)
            && (forall i, j :: 0 <= i < j < |r| ==> TextLe(r[i].time, r[j].time))
            && (forall k :: Class(r, k, ByTime()) == Class(Registered(timetable, courses), k, ByTime()))
  {
    var f := Registered(timetable, courses);
    var r := MatchCourses(timetable, courses);
    RegisteredCount(timetable, courses);
    ByTimeOrder();
    SortSorted(f, ByTime());
    forall k ensures Class(r, k, ByTime()) == Class(f, k, ByTime()) {
      SortStable(f, k, ByTime());
    }
    forall e ensures e in r <==> e in timetable && e.code in courses {
      assert e in r <==> multiset(r)[e] > 0;
      assert e in timetable <==> multiset(timetable)[e] > 0;
    }
  }

  /** Equal time texts are the only ties, so among matches with the same
      time text the timetable order is kept. */
  lemma TiesAreEqualTimes(a: Entry, b: Entry)
    requires Equiv(a, b, ByTime())
    ensures a.time == b.time
  {
    TextLeAntisymmetric(a.time, b.time);
  }

  /** Any ordering of the matches that is sorted by time text and keeps
      timetable order among equal time texts is the one returned: the
      result does not depend on how the sort is carried out. */
  lemma MatchUnique(timetable: seq<Entry>, courses: seq<string>, r: seq<Entry>)
    requires multiset(r) == multiset(Registered(timetable, courses))
    requires forall i, j :: 0 <= i < j < |r| ==> TextLe(r[i].time, r[j].time)
    requires forall k :: Class(r, k, ByTime()) == Class(Registered(timetable, courses), k, ByTime())
    ensures r == MatchCourses(timetable, courses)
  {
    ByTimeOrder();
    SortUnique(r, Registered(timetable, courses), ByTime());
  }

  /** An empty timetable matches nothing. */
  lemma MatchEmpty(courses: seq<string>)
    ensures MatchCourses([], courses) == []
  {
  }
}
