/** A stable insertion sort over a caller-supplied total preorder, standing in
    for Python's `list.sort` / `sorted` (both stable). */
module Sorting {

  /** `before` is total and transitive: every pair is comparable. */
  ghost predicate TotalPreorder<T(!new)>(before: (T, T) -> bool)
  {
    && (forall a, b :: before(a, b) || before(b, a))
    && (forall a, b, c :: before(a, b) && before(b, c) ==> before(a, c))
  }

  ghost predicate Sorted<T>(s: seq<T>, before: (T, T) -> bool)
  {
    forall i, j :: 0 <= i < j < |s| ==> before(s[i], s[j])
  }

  /** Places `x` ahead of the first element it may precede, so that an element
      inserted later in the sort (one that came earlier in the input) stays
      ahead of equal ones. */
  function Insert<T(!new)>(x: T, s: seq<T>, before: (T, T) -> bool): (r: seq<T>)
    requires TotalPreorder(before)
    requires Sorted(s, before)
    ensures Sorted(r, before)
    ensures multiset(r) == multiset(s) + multiset{x}
    ensures |r| == |s| + 1
  {
    if |s| == 0 || before(x, s[0]) then
      [x] + s
    else
      var rest := Insert(x, s[1..], before);
      assert s == [s[0]] + s[1..];
      assert before(s[0], x);
      assert forall k :: 0 <= k < |rest| ==> before(s[0], rest[k]) by {
        forall k | 0 <= k < |rest| ensures before(s[0], rest[k]) {
          assert rest[k] in multiset(rest);
          if rest[k] != x {
            assert rest[k] in multiset(s[1..]);
            var m :| 0 <= m < |s[1..]| && s[1..][m] == rest[k];
            assert s[m + 1] == rest[k];
          }
        }
      }
      [s[0]] + rest
  }

  /** The input in `before` order; among equivalent elements, input order is kept. */
  function SortBy<T(!new)>(s: seq<T>, before: (T, T) -> bool): (r: seq<T>)
    requires TotalPreorder(before)
    ensures Sorted(r, before)
    ensures multiset(r) == multiset(s)
    ensures |r| == |s|
    ensures forall y :: Equivalents(r, y, before) == Equivalents(s, y, before)
  {
    if |s| == 0 then []
    else
      assert s == [s[0]] + s[1..];
      var rest := SortBy(s[1..], before);
      InsertStable(s[0], rest, before);
      assert forall y :: Equivalents(s, y, before) == (if Equivalent(s[0], y, before) then [s[0]] else []) + Equivalents(s[1..], y, before);
      Insert(s[0], rest, before)
  }

  /** `a` and `b` may each precede the other: a sort may order them either way. */
  predicate Equivalent<T>(a: T, b: T, before: (T, T) -> bool)
  {
    before(a, b) && before(b, a)
  }

  /** The elements of `s` equivalent to `y`, in the order of `s`. A sort is
      stable when this subsequence is the same before and after, for every `y`. */
  function Equivalents<T>(s: seq<T>, y: T, before: (T, T) -> bool): (r: seq<T>)
    ensures forall k :: 0 <= k < |r| ==> Equivalent(r[k], y, before)
    ensures |r| <= |s|
  {
    if |s| == 0 then []
    else (if Equivalent(s[0], y, before) then [s[0]] else []) + Equivalents(s[1..], y, before)
  }

  lemma {:induction false} EquivalentsAppend<T>(a: seq<T>, b: seq<T>, y: T, before: (T, T) -> bool)
    ensures Equivalents(a + b, y, before) == Equivalents(a, y, before) + Equivalents(b, y, before)
  {
    if |a| == 0 {
      assert a + b == b;
    } else {
      assert (a + b)[0] == a[0];
      assert (a + b)[1..] == a[1..] + b;
      EquivalentsAppend(a[1..], b, y, before);
    }
  }

  /** A prefix keeps, of each class of equivalent elements, a prefix of it. */
  lemma PrefixEquivalents<T>(s: seq<T>, m: nat, before: (T, T) -> bool)
    requires m <= |s|
    ensures forall y :: Equivalents(s[..m], y, before) <= Equivalents(s, y, before)
  {
    assert s == s[..m] + s[m..];
    forall y ensures Equivalents(s[..m], y, before) <= Equivalents(s, y, before) {
      EquivalentsAppend(s[..m], s[m..], y, before);
    }
  }

  /** Inserting `x` puts it ahead of the elements equivalent to it and leaves
      every other class as it was. */
  lemma InsertStable<T(!new)>(x: T, s: seq<T>, before: (T, T) -> bool)
    requires TotalPreorder(before)
    requires Sorted(s, before)
    ensures forall y :: Equivalents(Insert(x, s, before), y, before)
                     == (if Equivalent(x, y, before) then [x] else []) + Equivalents(s, y, before)
  {
    forall y ensures Equivalents(Insert(x, s, before), y, before)
                  == (if Equivalent(x, y, before) then [x] else []) + Equivalents(s, y, before) {
      InsertStableAt(x, s, before, y);
    }
  }

  lemma {:induction false} InsertStableAt<T(!new)>(x: T, s: seq<T>, before: (T, T) -> bool, y: T)
    requires TotalPreorder(before)
    requires Sorted(s, before)
    ensures Equivalents(Insert(x, s, before), y, before)
         == (if Equivalent(x, y, before) then [x] else []) + Equivalents(s, y, before)
  {
    if |s| == 0 || before(x, s[0]) {
      assert Insert(x, s, before) == [x] + s;
      EquivalentsCons(x, s, y, before);
    } else {
      var rest := Insert(x, s[1..], before);
      assert Insert(x, s, before) == [s[0]] + rest;
      InsertStableAt(x, s[1..], before, y);
      if Equivalent(x, y, before) {
        AheadNotEquivalent(x, s[0], y, before);
      }
      StableCons(x, s, rest, y, before);
    }
  }

  /** The step of `InsertStableAt` past a head `s[0]` that `x` may not precede. */
  lemma StableCons<T>(x: T, s: seq<T>, rest: seq<T>, y: T, before: (T, T) -> bool)
    requires |s| > 0
    requires Equivalents(rest, y, before) == (if Equivalent(x, y, before) then [x] else []) + Equivalents(s[1..], y, before)
    requires Equivalent(x, y, before) ==> !Equivalent(s[0], y, before)
    ensures Equivalents([s[0]] + rest, y, before)
         == (if Equivalent(x, y, before) then [x] else []) + Equivalents(s, y, before)
  {
    assert s == [s[0]] + s[1..];
    EquivalentsCons(s[0], rest, y, before);
    EquivalentsCons(s[0], s[1..], y, before);
  }

  lemma EquivalentsCons<T>(e: T, t: seq<T>, y: T, before: (T, T) -> bool)
    ensures Equivalents([e] + t, y, before) == (if Equivalent(e, y, before) then [e] else []) + Equivalents(t, y, before)
  {
    assert ([e] + t)[0] == e && ([e] + t)[1..] == t;
  }

  /** An element that `x` may not precede is not equivalent to anything
      equivalent to `x`. */
  lemma AheadNotEquivalent<T(!new)>(x: T, e: T, y: T, before: (T, T) -> bool)
    requires TotalPreorder(before)
    requires !before(x, e) && Equivalent(x, y, before)
    ensures !Equivalent(e, y, before)
  {
  }

  /** `chosen` is drawn from `pool`, and each of its elements comes, by
      `before`, ahead of every element of `pool` left out. */
  ghost predicate ChosenFirst<T(!new)>(chosen: seq<T>, pool: multiset<T>, before: (T, T) -> bool)
  {
    && multiset(chosen) <= pool
    && forall a, b :: a in chosen && b in pool - multiset(chosen) ==> before(a, b)
  }

  /** In a sorted sequence, every element of a prefix comes before every
      element left after it. */
  lemma PrefixDominates<T(!new)>(s: seq<T>, m: nat, before: (T, T) -> bool)
    requires Sorted(s, before) && m <= |s|
    ensures ChosenFirst(s[..m], multiset(s), before)
  {
    assert s == s[..m] + s[m..];
    assert multiset(s) - multiset(s[..m]) == multiset(s[m..]);
    forall a, b | a in s[..m] && b in multiset(s) - multiset(s[..m]) ensures before(a, b) {
      var i :| 0 <= i < m && s[..m][i] == a;
      assert b in s[m..];
      var j :| 0 <= j < |s| - m && s[m..][j] == b;
      assert s[i] == a && s[m + j] == b;
    }
  }
}
