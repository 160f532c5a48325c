/** Sequence helpers shared by the scheduling model: routes laid end to end,
    list-comprehension filtering, order-preserving embedding, duplicates. */
module Seqs {

  function Min(a: int, b: int): int
  {
    if a < b then a else b
  }

  /** All sequences of `ss` concatenated in order (every truck route, end to end). */
  function Flatten<T>(ss: seq<seq<T>>): seq<T>
  {
    if |ss| == 0 then [] else ss[0] + Flatten(ss[1..])
  }

  lemma {:induction false} FlattenConcat<T>(a: seq<seq<T>>, b: seq<seq<T>>)
    ensures Flatten(a + b) == Flatten(a) + Flatten(b)
  {
    if |a| == 0 {
      assert a + b == b;
    } else {
      assert (a + b)[1..] == a[1..] + b;
      FlattenConcat(a[1..], b);
    }
  }

  /** An element is in the concatenation exactly when it is in one of the parts. */
  lemma {:induction false} FlattenMember<T>(ss: seq<seq<T>>, x: T)
    ensures x in Flatten(ss) <==> exists i :: 0 <= i < |ss| && x in ss[i]
  {
    if |ss| > 0 {
      FlattenMember(ss[1..], x);
      assert forall i :: 1 <= i < |ss| ==> ss[1..][i - 1] == ss[i];
    }
  }

  /** Replacing one part changes the concatenation's contents by exactly that part. */
  lemma {:induction false} FlattenUpdate<T>(ss: seq<seq<T>>, t: nat, s: seq<T>)
    requires t < |ss|
    ensures multiset(Flatten(ss[t := s])) + multiset(ss[t]) == multiset(Flatten(ss)) + multiset(s)
  {
    if t == 0 {
      var u := ss[t := s];
      assert u[1..] == ss[1..];
      assert Flatten(u) == s + Flatten(ss[1..]);
      assert Flatten(ss) == ss[0] + Flatten(ss[1..]);
    } else {
      var u := ss[t := s];
      assert u[0] == ss[0] && u[1..] == ss[1..][t - 1 := s];
      assert ss[1..][t - 1] == ss[t];
      FlattenUpdate(ss[1..], t - 1, s);
      var a, b, c, d := multiset(ss[0]), multiset(Flatten(u[1..])), multiset(Flatten(ss[1..])), multiset(ss[t]);
      assert b + d == c + multiset(s);
      assert multiset(Flatten(u)) == a + b;
      assert multiset(Flatten(ss)) == a + c;
      assert (a + b) + d == a + (b + d);
    }
  }

  /** Replacing one list by one that holds `ids` as well adds exactly those
      elements to the flattened whole. */
  lemma UpdateGrows(routes: seq<seq<nat>>, t: nat, route: seq<nat>, ids: seq<nat>)
    requires t < |routes| && multiset(route) == multiset(routes[t]) + multiset(ids)
    ensures multiset(Flatten(routes[t := route])) == multiset(Flatten(routes)) + multiset(ids)
  {
    FlattenUpdate(routes, t, route);
    var a, b := multiset(Flatten(routes[t := route])), multiset(Flatten(routes));
    var before, added := multiset(routes[t]), multiset(ids);
    assert a + before == (b + added) + before;
    forall x ensures a[x] == (b + added)[x] {
      assert (a + before)[x] == ((b + added) + before)[x];
    }
    assert a == b + added;
  }

  /** `a` can be obtained from `b` by deleting elements: the relative order of what is kept is unchanged. */
  predicate IsSubsequence<T(==)>(a: seq<T>, b: seq<T>)
    decreases |b|
  {
    if |b| == 0 then |a| == 0
    else (|a| > 0 && a[0] == b[0] && IsSubsequence(a[1..], b[1..])) || IsSubsequence(a, b[1..])
  }

  /** `[c for c in s if c not in removed]`. */
  function Without<T(==,!new)>(s: seq<T>, removed: seq<T>): (r: seq<T>)
    ensures forall x :: multiset(r)[x] == if x in removed then 0 else multiset(s)[x]
    ensures IsSubsequence(r, s)
  {
    if |s| == 0 then []
    else
      assert s == [s[0]] + s[1..];
      if s[0] in removed then Without(s[1..], removed)
      else
        var r := [s[0]] + Without(s[1..], removed);
        assert r[1..] == Without(s[1..], removed);
        r
  }

  lemma WithoutMember<T(!new)>(s: seq<T>, removed: seq<T>, x: T)
    ensures x in Without(s, removed) <==> x in s && x !in removed
  {
    assert x in Without(s, removed) <==> x in multiset(Without(s, removed));
    assert x in s <==> x in multiset(s);
  }

  /** Filtering one element out of a duplicate-free sequence that holds it
      shortens the sequence by one. */
  lemma WithoutDistinct<T(!new)>(s: seq<T>, x: T)
    requires NoDuplicates(s) && x in s
    ensures |Without(s, [x])| == |s| - 1
  {
    var w := Without(s, [x]);
    DistinctCount(s, x);
    assert multiset(w) == multiset(s) - multiset{x};
    assert |w| == |multiset(w)|;
  }

  predicate NoDuplicates<T(==)>(s: seq<T>)
  {
    forall i, j :: 0 <= i < j < |s| ==> s[i] != s[j]
  }

  /** The distinct elements of `s`, each at its first occurrence. */
  function Dedup<T(==,!new)>(s: seq<T>): (r: seq<T>)
    ensures forall x :: x in r <==> x in s
    ensures NoDuplicates(r)
    ensures NoDuplicates(s) ==> r == s
  {
    if |s| == 0 then []
    else
      var d := Dedup(s[..|s| - 1]);
      var x := s[|s| - 1];
      assert s == s[..|s| - 1] + [x];
      if x in d then d else d + [x]
  }

  /** Python's `list.remove(x)`: drop the first occurrence of `x`. */
  function RemoveFirst<T(==)>(s: seq<T>, x: T): (r: seq<T>)
    requires x in s
    ensures |r| == |s| - 1
    ensures multiset(r) == multiset(s) - multiset{x}
  {
    assert s == [s[0]] + s[1..];
    if s[0] == x then s[1..] else [s[0]] + RemoveFirst(s[1..], x)
  }

  /** A duplicate-free sequence has no occurrence of `x` left once `x` is removed. */
  lemma RemoveFirstOfDistinct<T>(s: seq<T>, x: T)
    requires x in s && NoDuplicates(s)
    ensures x !in RemoveFirst(s, x) && NoDuplicates(RemoveFirst(s, x))
  {
    var r := RemoveFirst(s, x);
    forall y ensures multiset(s)[y] <= 1 {
      DistinctCount(s, y);
    }
    assert multiset(r)[x] == 0;
    forall i, j | 0 <= i < j < |r| ensures r[i] != r[j] {
      if r[i] == r[j] {
        MultisetOfTwo(r, i, j);
      }
    }
  }

  lemma {:induction false} DistinctCount<T>(s: seq<T>, y: T)
    requires NoDuplicates(s)
    ensures multiset(s)[y] <= 1
  {
    if |s| > 0 {
      assert s == [s[0]] + s[1..];
      DistinctCount(s[1..], y);
      if s[0] == y {
        assert y !in s[1..];
      }
    }
  }

  /** Two duplicate-free sequences are laid end to end without a repeat
      when they share no element. */
  lemma NoDuplicatesConcat<T>(a: seq<T>, b: seq<T>)
    requires NoDuplicates(a) && NoDuplicates(b)
    requires forall x :: x in a ==> x !in b
    ensures NoDuplicates(a + b)
  {
    var s := a + b;
    forall i, j | 0 <= i < j < |s| ensures s[i] != s[j] {
      if i < |a| && j >= |a| {
        assert s[i] in a && s[j] == b[j - |a|];
      } else if i >= |a| {
        assert s[i] == b[i - |a|] && s[j] == b[j - |a|];
      }
    }
  }

  /** Duplicate-free sequences with the same elements are permutations of
      each other. */
  lemma DistinctSameElements<T>(a: seq<T>, b: seq<T>)
    requires NoDuplicates(a) && NoDuplicates(b)
    requires forall x :: x in a <==> x in b
    ensures multiset(a) == multiset(b)
  {
    forall x ensures multiset(a)[x] == multiset(b)[x] {
      DistinctCount(a, x);
      DistinctCount(b, x);
      assert x in a <==> x in multiset(a);
      assert x in b <==> x in multiset(b);
    }
  }

  /** A permutation of a duplicate-free sequence is duplicate-free and has
      the same elements. */
  lemma PermutationOfDistinct<T>(a: seq<T>, b: seq<T>)
    requires NoDuplicates(a) && multiset(b) == multiset(a)
    ensures NoDuplicates(b)
    ensures forall x :: x in b <==> x in a
  {
    forall x ensures x in b <==> x in a {
      assert x in b <==> x in multiset(b);
      assert x in a <==> x in multiset(a);
    }
    forall i, j | 0 <= i < j < |b| ensures b[i] != b[j] {
      if b[i] == b[j] {
        MultisetOfTwo(b, i, j);
        DistinctCount(a, b[i]);
      }
    }
  }

  lemma MultisetOfTwo<T>(s: seq<T>, i: nat, j: nat)
    requires i < j < |s| && s[i] == s[j]
    ensures multiset(s)[s[i]] >= 2
  {
    assert s == s[..i] + [s[i]] + s[i + 1..j] + [s[j]] + s[j + 1..];
  }
}
