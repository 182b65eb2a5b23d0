/**
 * The stable sort of JavaScript's `Array.prototype.sort` with a comparator,
 * given as an insertion sort over a "less than or equal" relation `le`.
 * For a total preorder, a sorted, stable permutation is unique, so this is a
 * reference definition of what `sort` returns.
 */
module Sorting {

  /** `le` is total and transitive: a comparator that never contradicts itself. */
  ghost predicate TotalPreorder<T(!new)>(le: (T, T) -> bool) {
    (forall a, b :: le(a, b) || le(b, a))
    && (forall a, b, c :: le(a, b) && le(b, c) ==> le(a, c))
  }

  /** The comparator returns 0 for `a` and `b`. */
  predicate Equiv<T>(le: (T, T) -> bool, a: T, b: T) {
    le(a, b) && le(b, a)
  }

  predicate Sorted<T>(s: seq<T>, le: (T, T) -> bool) {
    forall i, j :: 0 <= i < j < |s| ==> le(s[i], s[j])
  }

  /** The elements of `s` the comparator ranks equal to `e`, in their order in `s`. */
  function Class<T>(s: seq<T>, le: (T, T) -> bool, e: T): seq<T> {
    if |s| == 0 then []
    else (if Equiv(le, s[0], e) then [s[0]] else []) + Class(s[1..], le, e)
  }

  /** Inserts `x` before the first element it is not greater than. */
  function Insert<T>(x: T, s: seq<T>, le: (T, T) -> bool): seq<T> {
    if |s| == 0 then [x]
    else if le(x, s[0]) then [x] + s
    else [s[0]] + Insert(x, s[1..], le)
  }

  /** `s.sort(cmp)` where `le(a, b)` means `cmp(a, b) <= 0`. */
  function Sort<T>(s: seq<T>, le: (T, T) -> bool): seq<T> {
    if |s| == 0 then [] else Insert(s[0], Sort(s[1..], le), le)
  }

  lemma {:induction false} InsertMultiset<T>(x: T, s: seq<T>, le: (T, T) -> bool)
    ensures multiset(Insert(x, s, le)) == multiset(s) + multiset{x}
    decreases |s|
  {
    if |s| > 0 && !le(x, s[0]) {
      InsertMultiset(x, s[1..], le);
      assert s == [s[0]] + s[1..];
    }
  }

  /** Every element of the result is the inserted one or an element of the list. */
  lemma InsertMembers<T>(x: T, s: seq<T>, le: (T, T) -> bool)
    ensures forall j :: 0 <= j < |Insert(x, s, le)| ==> Insert(x, s, le)[j] == x || Insert(x, s, le)[j] in s
  {
    var t := Insert(x, s, le);
    InsertMultiset(x, s, le);
    forall j | 0 <= j < |t| ensures t[j] == x || t[j] in s {
      assert t[j] in multiset(t);
    }
  }

  lemma SortedCons<T>(a: T, t: seq<T>, le: (T, T) -> bool)
    requires Sorted(t, le) && forall j :: 0 <= j < |t| ==> le(a, t[j])
    ensures Sorted([a] + t, le)
  {
    var r := [a] + t;
    forall i, j | 0 <= i < j < |r| ensures le(r[i], r[j]) {
      assert r[j] == t[j - 1];
      if i > 0 {
        assert r[i] == t[i - 1];
      }
    }
  }

  lemma {:induction false} InsertSorted<T(!new)>(x: T, s: seq<T>, le: (T, T) -> bool)
    requires TotalPreorder(le) && Sorted(s, le)
    ensures Sorted(Insert(x, s, le), le)
    decreases |s|
  {
    if |s| > 0 {
      if le(x, s[0]) {
        forall j | 0 <= j < |s| ensures le(x, s[j]) {
          if j > 0 {
            assert le(s[0], s[j]);
          }
        }
        SortedCons(x, s, le);
      } else {
        var rest := s[1..];
        var t := Insert(x, rest, le);
        assert Sorted(rest, le) by {
          forall i, j | 0 <= i < j < |rest| ensures le(rest[i], rest[j]) {
            assert rest[i] == s[i + 1] && rest[j] == s[j + 1];
          }
        }
        InsertSorted(x, rest, le);
        InsertMembers(x, rest, le);
        forall j | 0 <= j < |t| ensures le(s[0], t[j]) {
          if t[j] != x {
            var k :| 0 <= k < |rest| && rest[k] == t[j];
            assert s[k + 1] == t[j];
          }
        }
        SortedCons(s[0], t, le);
      }
    }
  }

  lemma {:induction false} ClassAppend<T>(a: seq<T>, b: seq<T>, le: (T, T) -> bool, e: T)
    ensures Class(a + b, le, e) == Class(a, le, e) + Class(b, le, e)
    decreases |a|
  {
    if |a| == 0 {
      assert a + b == b;
    } else {
      assert (a + b)[1..] == a[1..] + b;
      ClassAppend(a[1..], b, le, e);
    }
  }

  lemma ClassCons<T>(a: T, s: seq<T>, le: (T, T) -> bool, e: T)
    ensures Class([a] + s, le, e) == (if Equiv(le, a, e) then [a] else []) + Class(s, le, e)
  {
    assert ([a] + s)[1..] == s;
  }

  /**
   * Inserting `x` puts it first among the elements equal to it already in
   * the list, which all come after it in the input.
   */
  lemma {:induction false} InsertClass<T(!new)>(x: T, s: seq<T>, le: (T, T) -> bool, e: T)
    requires TotalPreorder(le)
    ensures Class(Insert(x, s, le), le, e) ==
            (if Equiv(le, x, e) then [x] else []) + Class(s, le, e)
    decreases |s|
  {
    if |s| == 0 {
      ClassCons(x, [], le, e);
    } else if le(x, s[0]) {
      ClassCons(x, s, le, e);
    } else {
      var t := Insert(x, s[1..], le);
      InsertClass(x, s[1..], le, e);
      ClassCons(s[0], t, le, e);
      ClassCons(s[0], s[1..], le, e);
      assert [s[0]] + s[1..] == s;
      // Both equal to e would make x rank equal to s[0], yet le(x, s[0]) fails.
      assert !(Equiv(le, x, e) && Equiv(le, s[0], e));
    }
  }

  lemma {:induction false} SortMultiset<T>(s: seq<T>, le: (T, T) -> bool)
    ensures multiset(Sort(s, le)) == multiset(s)
    decreases |s|
  {
    if |s| > 0 {
      SortMultiset(s[1..], le);
      InsertMultiset(s[0], Sort(s[1..], le), le);
      assert s == [s[0]] + s[1..];
    }
  }

  lemma {:induction false} SortSorted<T(!new)>(s: seq<T>, le: (T, T) -> bool)
    requires TotalPreorder(le)
    ensures Sorted(Sort(s, le), le)
    decreases |s|
  {
    if |s| > 0 {
      SortSorted(s[1..], le);
      InsertSorted(s[0], Sort(s[1..], le), le);
    }
  }

  /** Stability: elements the comparator ranks equal keep their input order. */
  lemma {:induction false} SortStable<T(!new)>(s: seq<T>, le: (T, T) -> bool, e: T)
    requires TotalPreorder(le)
    ensures Class(Sort(s, le), le, e) == Class(s, le, e)
    decreases |s|
  {
    if |s| > 0 {
      SortStable(s[1..], le, e);
      InsertClass(s[0], Sort(s[1..], le), le, e);
    }
  }

  /** The sorted list is a sorted, stable permutation of the input. */
  lemma SortSpec<T(!new)>(s: seq<T>, le: (T, T) -> bool)
    requires TotalPreorder(le)
    ensures |Sort(s, le)| == |s|
    ensures multiset(Sort(s, le)) == multiset(s)
    ensures Sorted(Sort(s, le), le)
    ensures forall e :: Class(Sort(s, le), le, e) == Class(s, le, e)
  {
    SortMultiset(s, le);
    assert |Sort(s, le)| == |multiset(Sort(s, le))| == |multiset(s)| == |s|;
    SortSorted(s, le);
    forall e ensures Class(Sort(s, le), le, e) == Class(s, le, e) {
      SortStable(s, le, e);
    }
  }

  /** Every pair of distinct positions satisfies `p`. */
  predicate Pairwise<T>(s: seq<T>, p: (T, T) -> bool) {
    forall i, j :: 0 <= i < |s| && 0 <= j < |s| && i != j ==> p(s[i], s[j])
  }

  lemma {:induction false} InsertPairwise<T>(x: T, s: seq<T>, le: (T, T) -> bool, p: (T, T) -> bool)
    requires Pairwise(s, p)
    requires forall k :: 0 <= k < |s| ==> p(x, s[k]) && p(s[k], x)
    ensures Pairwise(Insert(x, s, le), p)
    decreases |s|
  {
    if |s| > 0 && !le(x, s[0]) {
      var t := Insert(x, s[1..], le);
      InsertPairwise(x, s[1..], le, p);
      InsertMembers(x, s[1..], le);
      var r := [s[0]] + t;
      forall m | 0 <= m < |t| ensures p(s[0], t[m]) && p(t[m], s[0]) {
        if t[m] != x {
          var k :| 0 <= k < |s[1..]| && s[1..][k] == t[m];
          assert s[k + 1] == t[m];
        }
      }
      forall i, j | 0 <= i < |r| && 0 <= j < |r| && i != j ensures p(r[i], r[j]) {
        if i > 0 && j > 0 {
          assert r[i] == t[i - 1] && r[j] == t[j - 1];
        }
      }
    }
  }

  /** Sorting keeps any property that holds between every two elements, such as distinct keys. */
  lemma {:induction false} SortPairwise<T>(s: seq<T>, le: (T, T) -> bool, p: (T, T) -> bool)
    requires Pairwise(s, p)
    ensures Pairwise(Sort(s, le), p)
    decreases |s|
  {
    if |s| > 0 {
      var rest := s[1..];
      assert Pairwise(rest, p) by {
        forall i, j | 0 <= i < |rest| && 0 <= j < |rest| && i != j ensures p(rest[i], rest[j]) {
          assert rest[i] == s[i + 1] && rest[j] == s[j + 1];
        }
      }
      SortPairwise(rest, le, p);
      SortMultiset(rest, le);
      var t := Sort(rest, le);
      forall k | 0 <= k < |t| ensures p(s[0], t[k]) && p(t[k], s[0]) {
        assert t[k] in multiset(rest);
        var m :| 0 <= m < |rest| && rest[m] == t[k];
        assert s[m + 1] == t[k];
      }
      InsertPairwise(s[0], t, le, p);
    }
  }

  /** Applies `f` to every element. */
  function Map<T, U>(f: T -> U, s: seq<T>): (r: seq<U>)
    ensures |r| == |s|
    ensures forall i :: 0 <= i < |s| ==> r[i] == f(s[i])
  {
    seq(|s|, i requires 0 <= i < |s| => f(s[i]))
  }

  lemma {:induction false} InsertMap<T, U>(x: T, s: seq<T>, f: T -> U, le: (T, T) -> bool, le2: (U, U) -> bool)
    requires forall a, b :: le2(f(a), f(b)) == le(a, b)
    ensures Insert(f(x), Map(f, s), le2) == Map(f, Insert(x, s, le))
    decreases |s|
  {
    if |s| > 0 {
      assert Map(f, s)[0] == f(s[0]);
      assert Map(f, s)[1..] == Map(f, s[1..]);
      if !le(x, s[0]) {
        InsertMap(x, s[1..], f, le, le2);
        assert Map(f, [s[0]] + Insert(x, s[1..], le)) == [f(s[0])] + Map(f, Insert(x, s[1..], le));
      } else {
        assert Map(f, [x] + s) == [f(x)] + Map(f, s);
      }
    }
  }

  /**
   * Mapping a function that keeps what the comparator looks at commutes
   * with sorting: sort-then-map and map-then-sort give the same list.
   */
  lemma {:induction false} SortMap<T, U>(s: seq<T>, f: T -> U, le: (T, T) -> bool, le2: (U, U) -> bool)
    requires forall a, b :: le2(f(a), f(b)) == le(a, b)
    ensures Sort(Map(f, s), le2) == Map(f, Sort(s, le))
    decreases |s|
  {
    if |s| > 0 {
      assert Map(f, s)[0] == f(s[0]);
      assert Map(f, s)[1..] == Map(f, s[1..]);
      SortMap(s[1..], f, le, le2);
      InsertMap(s[0], Sort(s[1..], le), f, le, le2);
    }
  }
}
