/** `Array.prototype.sort` with a consistent comparator: a stable sort.
    The comparator is given as the "not after" relation `le` of a total
    preorder; `Sort` is a stable insertion sort, and `SortUnique` shows it is
    the only sorted, stable permutation, so it is the sequence any stable
    sort returns. */
module Sorting {

  ghost predicate Total<T(!new)>(le: (T, T) -> bool) {
    forall a, b :: le(a, b) || le(b, a)
  }

  ghost predicate Transitive<T(!new)>(le: (T, T) -> bool) {
    forall a, b, c :: le(a, b) && le(b, c) ==> le(a, c)
  }

  ghost predicate TotalPreorder<T(!new)>(le: (T, T) -> bool) {
    Total(le) && Transitive(le)
  }

  predicate SortedBy<T>(s: seq<T>, le: (T, T) -> bool) {
    forall i, j :: 0 <= i < j < |s| ==> le(s[i], s[j])
  }

  /** Neither sorts before the other. */
  predicate Equiv<T>(a: T, b: T, le: (T, T) -> bool) {
    le(a, b) && le(b, a)
  }

  /** The elements of `s` that compare equal to `k`, in their order in `s`. */
  function Class<T>(s: seq<T>, k: T, le: (T, T) -> bool): (r: seq<T>)
    ensures |r| <= |s|
    ensures forall i :: 0 <= i < |r| ==> Equiv(r[i], k, le)
  {
    if s == [] then []
    else (if Equiv(s[0], k, le) then [s[0]] else []) + Class(s[1..], k, le)
  }

  /** Places `x` after every element of the sorted `s` that does not sort
      after it. */
  function Insert<T(==)>(x: T, s: seq<T>, le: (T, T) -> bool): (r: seq<T>)
    ensures multiset(r) == multiset(s) + multiset{x}
  {
    if s == [] then [x]
    else if !le(s[0], x) then [x] + s
    else
      assert s == [s[0]] + s[1..];
      [s[0]] + Insert(x, s[1..], le)
  }

  /** Stable insertion sort: each element in turn is inserted behind the
      ones before it that are not after it. */
  function Sort<T(==)>(s: seq<T>, le: (T, T) -> bool): (r: seq<T>)
    ensures multiset(r) == multiset(s)
  {
    if s == [] then []
    else
      assert s == s[..|s| - 1] + [s[|s| - 1]];
      Insert(s[|s| - 1], Sort(s[..|s| - 1], le), le)
  }

  // ------------------------------------------------------------ sortedness

  lemma {:induction false} InsertSorted<T(!new)>(x: T, s: seq<T>, le: (T, T) -> bool)
    requires TotalPreorder(le) && SortedBy(s, le)
    ensures SortedBy(Insert(x, s, le), le)
  {
    if s == [] {
    } else if !le(s[0], x) {
      assert le(x, s[0]);
    } else {
      var t := Insert(x, s[1..], le);
      assert SortedBy(s[1..], le) by {
        forall i, j | 0 <= i < j < |s[1..]| ensures le(s[1..][i], s[1..][j]) {
          assert s[1..][i] == s[i + 1] && s[1..][j] == s[j + 1];
        }
      }
      InsertSorted(x, s[1..], le);
      forall j | 0 <= j < |t| ensures le(s[0], t[j]) {
        assert t[j] in multiset(t);
        assert t[j] == x || t[j] in multiset(s[1..]);
        if t[j] != x {
          var m :| 0 <= m < |s[1..]| && s[1..][m] == t[j];
          assert s[m + 1] == t[j];
        }
      }
    }
  }

  lemma {:induction false} SortSorted<T(!new)>(s: seq<T>, le: (T, T) -> bool)
    requires TotalPreorder(le)
    ensures SortedBy(Sort(s, le), le)
  {
    if s != [] {
      SortSorted(s[..|s| - 1], le);
      InsertSorted(s[|s| - 1], Sort(s[..|s| - 1], le), le);
    }
  }

  // -------------------------------------------------------------- stability

  lemma {:induction false} ClassAppend<T>(a: seq<T>, b: seq<T>, k: T, le: (T, T) -> bool)
    ensures Class(a + b, k, le) == Class(a, k, le) + Class(b, k, le)
  {
    if a == [] {
      assert a + b == b;
    } else {
      assert (a + b)[1..] == a[1..] + b;
      ClassAppend(a[1..], b, k, le);
    }
  }

  /** A sorted sequence holds no element equivalent to `k` once an element
      after `k` has been seen. */
  lemma {:induction false} ClassAfter<T(!new)>(s: seq<T>, k: T, le: (T, T) -> bool)
    requires TotalPreorder(le) && SortedBy(s, le) && s != [] && !le(s[0], k)
    ensures Class(s, k, le) == []
  {
    assert !Equiv(s[0], k, le);
    if |s| > 1 {
      assert le(s[0], s[1]);
      assert !le(s[1], k);
      SortedTail(s, le);
      ClassAfter(s[1..], k, le);
    }
  }

  /** The class of `k` in `[x] + t`, or in `t + [x]`, gains `x` exactly
      when `x` is equivalent to `k`. */
  function Gain<T>(x: T, k: T, le: (T, T) -> bool): seq<T> {
    if Equiv(x, k, le) then [x] else []
  }

  lemma ClassCons<T>(x: T, t: seq<T>, k: T, le: (T, T) -> bool)
    ensures Class([x] + t, k, le) == Gain(x, k, le) + Class(t, k, le)
  {
    assert ([x] + t)[1..] == t;
  }

  lemma InsertClassFront<T(!new)>(x: T, s: seq<T>, k: T, le: (T, T) -> bool)
    requires TotalPreorder(le) && SortedBy(s, le) && s != [] && !le(s[0], x)
    ensures Class(Insert(x, s, le), k, le) == Class(s, k, le) + Gain(x, k, le)
  {
    ClassCons(x, s, k, le);
    if Equiv(x, k, le) {
      assert !le(s[0], k);
      ClassAfter(s, k, le);
    }
  }

  lemma InsertClassBehind<T>(x: T, s: seq<T>, k: T, le: (T, T) -> bool)
    requires s != [] && le(s[0], x)
    requires Class(Insert(x, s[1..], le), k, le) == Class(s[1..], k, le) + Gain(x, k, le)
    ensures Class(Insert(x, s, le), k, le) == Class(s, k, le) + Gain(x, k, le)
  {
    var u := Insert(x, s[1..], le);
    InsertBehind(x, s, le);
    ClassCons(s[0], u, k, le);
    ClassCons(s[0], s[1..], k, le);
    var g := Gain(s[0], k, le);
    var a := Class(s[1..], k, le);
    var b := Gain(x, k, le);
    calc {
      Class(Insert(x, s, le), k, le);
      Class([s[0]] + u, k, le);
      g + (a + b);
      { ConcatAssoc(g, a, b); }
      (g + a) + b;
      { assert [s[0]] + s[1..] == s; }
      Class(s, k, le) + b;
    }
  }

  lemma PrefixCancel<T>(g: seq<T>, a: seq<T>, b: seq<T>)
    requires g + a == g + b
    ensures a == b
  {
    assert a == (g + a)[|g|..];
  }

  lemma ConcatAssoc<T>(a: seq<T>, b: seq<T>, c: seq<T>)
    ensures a + (b + c) == (a + b) + c
  {
  }

  lemma InsertBehind<T>(x: T, s: seq<T>, le: (T, T) -> bool)
    requires s != [] && le(s[0], x)
    ensures Insert(x, s, le) == [s[0]] + Insert(x, s[1..], le)
  {
  }

  lemma {:induction false} InsertClass<T(!new)>(x: T, s: seq<T>, k: T, le: (T, T) -> bool)
    requires TotalPreorder(le) && SortedBy(s, le)
    ensures Class(Insert(x, s, le), k, le) == Class(s, k, le) + Gain(x, k, le)
  {
    if s == [] {
    } else if !le(s[0], x) {
      InsertClassFront(x, s, k, le);
    } else {
      SortedTail(s, le);
      InsertClass(x, s[1..], k, le);
      InsertClassBehind(x, s, k, le);
    }
  }

  lemma ClassSingle<T>(x: T, k: T, le: (T, T) -> bool)
    ensures Class([x], k, le) == Gain(x, k, le)
  {
    assert [x][1..] == [];
  }

  lemma ClassSnoc<T>(init: seq<T>, x: T, k: T, le: (T, T) -> bool)
    ensures Class(init + [x], k, le) == Class(init, k, le) + Gain(x, k, le)
  {
    ClassAppend(init, [x], k, le);
    ClassSingle(x, k, le);
  }

  lemma ClassLast<T>(s: seq<T>, k: T, le: (T, T) -> bool)
    requires s != []
    ensures Class(s, k, le) == Class(s[..|s| - 1], k, le) + Gain(s[|s| - 1], k, le)
  {
    var init, x := s[..|s| - 1], s[|s| - 1];
    assert s == init + [x];
    ClassSnoc(init, x, k, le);
  }

  lemma SortLast<T>(s: seq<T>, le: (T, T) -> bool)
    requires s != []
    ensures Sort(s, le) == Insert(s[|s| - 1], Sort(s[..|s| - 1], le), le)
  {
  }

  lemma InsertSortedClass<T(!new)>(x: T, init: seq<T>, k: T, le: (T, T) -> bool)
    requires TotalPreorder(le)
    ensures Class(Insert(x, Sort(init, le), le), k, le) == Class(Sort(init, le), k, le) + Gain(x, k, le)
  {
    SortSorted(init, le);
    InsertClass(x, Sort(init, le), k, le);
  }

  /** Sorting keeps the relative order of equivalent elements. */
  lemma {:induction false} SortStable<T(!new)>(s: seq<T>, k: T, le: (T, T) -> bool)
    requires TotalPreorder(le)
    ensures Class(Sort(s, le), k, le) == Class(s, k, le)
  {
    if s != [] {
      var init := s[..|s| - 1];
      var x := s[|s| - 1];
      SortLast(s, le);
      SortStable(init, k, le);
      InsertSortedClass(x, init, k, le);
      ClassLast(s, k, le);
    }
  }

  // ------------------------------------------------------------- uniqueness

  lemma MinimalFirst<T(!new)>(r: seq<T>, q: seq<T>, le: (T, T) -> bool)
    requires TotalPreorder(le) && SortedBy(r, le) && SortedBy(q, le)
    requires r != [] && multiset(r) == multiset(q)
    ensures Equiv(r[0], q[0], le)
  {
    assert q[0] in multiset(r);
    var i :| 0 <= i < |r| && r[i] == q[0];
    assert r[0] in multiset(q);
    var j :| 0 <= j < |q| && q[j] == r[0];
    if i > 0 { assert le(r[0], r[i]); }
    if j > 0 { assert le(q[0], q[j]); }
  }

  lemma SortedTail<T>(r: seq<T>, le: (T, T) -> bool)
    requires SortedBy(r, le) && r != []
    ensures SortedBy(r[1..], le)
  {
    forall i, j | 0 <= i < j < |r[1..]| ensures le(r[1..][i], r[1..][j]) {
      assert r[1..][i] == r[i + 1] && r[1..][j] == r[j + 1];
    }
  }

  /** Two sorted permutations of each other that order every equivalence
      class the same way are equal. */
  lemma {:induction false} SortedUnique<T(!new)>(r: seq<T>, q: seq<T>, le: (T, T) -> bool)
    requires TotalPreorder(le) && SortedBy(r, le) && SortedBy(q, le)
    requires multiset(r) == multiset(q)
    requires forall k :: Class(r, k, le) == Class(q, k, le)
    ensures r == q
    decreases |r|
  {
    if r == [] {
      assert |q| == |multiset(q)| == 0;
    } else {
      assert |q| == |multiset(q)| == |r|;
      SameHead(r, q, le);
      TailMultiset(r, q);
      TailClasses(r, q, le);
      SortedTail(r, le);
      SortedTail(q, le);
      SortedUnique(r[1..], q[1..], le);
    }
  }

  /** The two sequences start with the same element: equivalent first
      elements, each first in its class. */
  lemma SameHead<T(!new)>(r: seq<T>, q: seq<T>, le: (T, T) -> bool)
    requires TotalPreorder(le) && SortedBy(r, le) && SortedBy(q, le)
    requires r != [] && multiset(r) == multiset(q)
    requires forall k :: Class(r, k, le) == Class(q, k, le)
    ensures q != [] && r[0] == q[0]
  {
    assert |q| == |multiset(q)| == |r|;
    MinimalFirst(r, q, le);
    var k := r[0];
    assert le(k, k);
    assert Equiv(q[0], k, le);
    assert Class(r, k, le)[0] == r[0];
    assert Class(q, k, le)[0] == q[0];
  }

  lemma TailMultiset<T>(r: seq<T>, q: seq<T>)
    requires r != [] && q != [] && r[0] == q[0] && multiset(r) == multiset(q)
    ensures multiset(r[1..]) == multiset(q[1..])
  {
    assert r == [r[0]] + r[1..] && q == [q[0]] + q[1..];
    var mr := multiset(r[1..]);
    var mq := multiset(q[1..]);
    assert multiset(r) == multiset([r[0]] + r[1..]) == multiset{r[0]} + mr;
    assert multiset(q) == multiset([q[0]] + q[1..]) == multiset{r[0]} + mq;
    assert mr == multiset(r) - multiset{r[0]};
    assert mq == multiset(q) - multiset{r[0]};
  }

  lemma TailClasses<T>(r: seq<T>, q: seq<T>, le: (T, T) -> bool)
    requires r != [] && q != [] && r[0] == q[0]
    requires forall k :: Class(r, k, le) == Class(q, k, le)
    ensures forall k :: Class(r[1..], k, le) == Class(q[1..], k, le)
  {
    assert r == [r[0]] + r[1..] && q == [q[0]] + q[1..];
    forall k' ensures Class(r[1..], k', le) == Class(q[1..], k', le) {
      assert Class(r, k', le) == Class(q, k', le);
      ClassCons(r[0], r[1..], k', le);
      ClassCons(q[0], q[1..], k', le);
      PrefixCancel(Gain(r[0], k', le), Class(r[1..], k', le), Class(q[1..], k', le));
    }
  }

  /** Any sorted permutation of `s` that keeps the relative order of
      equivalent elements is `Sort(s)`. */
  lemma SortUnique<T(!new)>(r: seq<T>, s: seq<T>, le: (T, T) -> bool)
    requires TotalPreorder(le) && SortedBy(r, le) && multiset(r) == multiset(s)
    requires forall k :: Class(r, k, le) == Class(s, k, le)
    ensures r == Sort(s, le)
  {
    SortSorted(s, le);
    forall k ensures Class(r, k, le) == Class(Sort(s, le), k, le) {
      SortStable(s, k, le);
    }
    SortedUnique(r, Sort(s, le), le);
  }
}
