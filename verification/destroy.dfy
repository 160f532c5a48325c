/** The destroy operators: each takes customer ids out of the truck routes of
    a copy of the solution and reports which ids it took. Random draws are
    given as arguments. */
module Destroy {
  import opened Options
  import opened Seqs
  import opened Sorting
  import opened Model
  import opened Solutions
  import opened Evaluate

  /** What an operator hands back: `random_removal` returns the solution
      alone when there is nothing to remove, every other outcome is the pair
      (solution, removed ids). */
  datatype Outcome = Bare(sol: Solution) | Destroyed(sol: Solution, removed: seq<nat>)

  /** The solution with every id of `removed` filtered out of every route,
      other ids kept in their order; drone trips and makespan are copied. */
  function RemoveAll(s: Solution, removed: seq<nat>): (r: Solution)
    ensures |r.routes| == |s.routes| && r.droneTrips == s.droneTrips && r.makespan == s.makespan
    ensures forall t :: 0 <= t < |s.routes| ==> IsSubsequence(r.routes[t], s.routes[t])
    ensures forall t, x :: 0 <= t < |s.routes| ==>
              multiset(r.routes[t])[x] == if x in removed then 0 else multiset(s.routes[t])[x]
  {
    s.(routes := seq(|s.routes|, t requires 0 <= t < |s.routes| => Without(s.routes[t], removed)))
  }

  /** Positions drawn by `random.sample`: distinct and within a list of length `n`. */
  predicate DistinctPositions(picks: seq<nat>, n: nat)
  {
    (forall k :: 0 <= k < |picks| ==> picks[k] < n) && NoDuplicates(picks)
  }

  function Pick<T>(all: seq<T>, picks: seq<nat>): (r: seq<T>)
    requires forall k :: 0 <= k < |picks| ==> picks[k] < |all|
    ensures |r| == |picks| && forall k :: 0 <= k < |picks| ==> r[k] == all[picks[k]]
  {
    seq(|picks|, k requires 0 <= k < |picks| => all[picks[k]])
  }

  /** `random_removal`, the sample given as the positions `picks` in the
      list of all served stops. A negative sample size is an error of
      `random.sample`. */
  function RandomRemoval(s: Solution, q: int, picks: seq<nat>): (r: Result<Outcome, string>)
    requires DistinctPositions(picks, |Flatten(s.routes)|)
    requires |Flatten(s.routes)| > 0 && q >= 0 ==> |picks| == Min(q, |Flatten(s.routes)|)
    ensures Flatten(s.routes) == [] ==> r == Success(Bare(s))
    ensures Flatten(s.routes) != [] && q < 0 ==> r.Failure?
    ensures Flatten(s.routes) != [] && q >= 0 ==>
              && r.Success? && r.value.Destroyed?
              && |r.value.removed| == Min(q, |Flatten(s.routes)|)
              && (forall k :: 0 <= k < |picks| ==> r.value.removed[k] == Flatten(s.routes)[picks[k]])
              && r.value.sol == RemoveAll(s, r.value.removed)
  {
    var all := Flatten(s.routes);
    if |all| == 0 then Success(Bare(s))
    else if q < 0 then Failure("Sample larger than population or is negative")
    else
      var removed := Pick(all, picks);
      Success(Destroyed(RemoveAll(s, removed), removed))
  }

  /** Taking the elements at distinct positions takes each value at most as
      often as it occurs. */
  lemma {:induction false} PickSubMultiset<T>(all: seq<T>, picks: seq<nat>)
    requires DistinctPositions(picks, |all|)
    ensures multiset(Pick(all, picks)) <= multiset(all)
    decreases |picks|
  {
    if |picks| > 0 {
      var i := picks[0];
      var rest := all[..i] + all[i + 1..];
      var shifted := Shift(picks);
      PickFirst(all, picks);
      PickSubMultiset(rest, shifted);
    }
  }

  /** The positions after the first, renumbered for the list with the
      first pick taken out. */
  function Shift(picks: seq<nat>): (r: seq<nat>)
    requires |picks| > 0
    ensures |r| == |picks| - 1
  {
    seq(|picks| - 1, k requires 0 <= k < |picks| - 1 =>
      if picks[k + 1] <= picks[0] then picks[k + 1] else picks[k + 1] - 1)
  }

  /** Picking at distinct positions is picking the first, then picking the
      shifted rest from the list without it. */
  lemma PickFirst<T>(all: seq<T>, picks: seq<nat>)
    requires DistinctPositions(picks, |all|) && |picks| > 0
    ensures var rest := all[..picks[0]] + all[picks[0] + 1..];
            && DistinctPositions(Shift(picks), |rest|)
            && Pick(all, picks) == [all[picks[0]]] + Pick(rest, Shift(picks))
            && multiset(Pick(all, picks)) == multiset{all[picks[0]]} + multiset(Pick(rest, Shift(picks)))
            && multiset(all) == multiset{all[picks[0]]} + multiset(rest)
  {
    var i := picks[0];
    var rest := all[..i] + all[i + 1..];
    var shifted := Shift(picks);
    forall k | 0 <= k < |shifted| ensures shifted[k] < |rest| && rest[shifted[k]] == all[picks[k + 1]] {
      assert picks[k + 1] != i;
    }
    forall a, b | 0 <= a < b < |shifted| ensures shifted[a] != shifted[b] {
      assert picks[a + 1] != picks[b + 1];
    }
    assert Pick(all, picks) == [all[i]] + Pick(rest, shifted);
    assert all == all[..i] + [all[i]] + all[i + 1..];
  }

  /** The stops `random_removal` takes are served stops: as a multiset they
      are contained in all stops of the routes. */
  lemma RandomRemovalTakesServed(s: Solution, q: int, picks: seq<nat>)
    requires DistinctPositions(picks, |Flatten(s.routes)|)
    requires |Flatten(s.routes)| > 0 && q >= 0 ==> |picks| == Min(q, |Flatten(s.routes)|)
    requires Flatten(s.routes) != [] && q >= 0
    ensures multiset(RandomRemoval(s, q, picks).value.removed) <= multiset(Flatten(s.routes))
  {
    PickSubMultiset(Flatten(s.routes), picks);
  }

  /** A removal saving: (time saved by dropping the stop, customer id, truck). */
  type Saving = (real, nat, nat)

  /** Lexicographic `>=` on savings, the order of `costs.sort(reverse=True)`. */
  predicate NotBelow(a: Saving, b: Saving)
  {
    a.0 > b.0 || (a.0 == b.0 && (a.1 > b.1 || (a.1 == b.1 && a.2 >= b.2)))
  }

  lemma NotBelowTotal()
    ensures TotalPreorder(NotBelow)
  {
  }

  /** `costs.sort(reverse=True)`. */
  function SortSavings(costs: seq<Saving>): (r: seq<Saving>)
    ensures Sorted(r, NotBelow) && multiset(r) == multiset(costs) && |r| == |costs|
  {
    NotBelowTotal();
    SortBy(costs, NotBelow)
  }

  /** The saving of dropping stop `i` of truck `t`. */
  function SavingAt(inst: Instance, p: Parameters, routes: seq<seq<nat>>, t: nat, i: nat): Saving
    requires DistShaped(inst) && RoutesInRange(inst, routes) && p.truckSpeed != 0.0
    requires t < |routes| && i < |routes[t]|
  {
    var route := routes[t];
    assert RouteInRange(inst, route[..i] + route[i + 1..]) by {
      assert forall k :: 0 <= k < |route[..i] + route[i + 1..]| ==>
               (route[..i] + route[i + 1..])[k] == if k < i then route[k] else route[k + 1];
    }
    (TruckTime(inst, p, route) - TruckTime(inst, p, route[..i] + route[i + 1..]), route[i], t)
  }

  function RouteSavings(inst: Instance, p: Parameters, routes: seq<seq<nat>>, t: nat): (r: seq<Saving>)
    requires DistShaped(inst) && RoutesInRange(inst, routes) && p.truckSpeed != 0.0
    requires t < |routes|
    ensures |r| == |routes[t]| && forall i :: 0 <= i < |r| ==> r[i] == SavingAt(inst, p, routes, t, i)
  {
    seq(|routes[t]|, i requires 0 <= i < |routes[t]| => SavingAt(inst, p, routes, t, i))
  }

  /** The `costs` list of `worst_removal`: one saving per stop, truck by truck. */
  function Savings(inst: Instance, p: Parameters, routes: seq<seq<nat>>): (r: seq<Saving>)
    requires DistShaped(inst) && RoutesInRange(inst, routes) && p.truckSpeed != 0.0
    ensures r == [] <==> Flatten(routes) == []
  {
    var per := seq(|routes|, t requires 0 <= t < |routes| => RouteSavings(inst, p, routes, t));
    SameEmptiness(per, routes);
    Flatten(per)
  }

  /** The savings listed are exactly those of the stops of the routes. */
  lemma SavingsMembers(inst: Instance, p: Parameters, routes: seq<seq<nat>>, e: Saving)
    requires DistShaped(inst) && RoutesInRange(inst, routes) && p.truckSpeed != 0.0
    ensures e in Savings(inst, p, routes) <==>
              exists t, i :: 0 <= t < |routes| && 0 <= i < |routes[t]| && e == SavingAt(inst, p, routes, t, i)
  {
    var per := seq(|routes|, t requires 0 <= t < |routes| => RouteSavings(inst, p, routes, t));
    assert Savings(inst, p, routes) == Flatten(per);
    FlattenMember(per, e);
    if e in Flatten(per) {
      var t :| 0 <= t < |per| && e in per[t];
      var row := RouteSavings(inst, p, routes, t);
      assert per[t] == row;
      var i :| 0 <= i < |row| && row[i] == e;
      assert e == SavingAt(inst, p, routes, t, i);
    }
    if exists t, i :: 0 <= t < |routes| && 0 <= i < |routes[t]| && e == SavingAt(inst, p, routes, t, i) {
      var t, i :| 0 <= t < |routes| && 0 <= i < |routes[t]| && e == SavingAt(inst, p, routes, t, i);
      var row := RouteSavings(inst, p, routes, t);
      assert per[t] == row;
      assert row[i] == e;
      assert e in per[t];
    }
  }

  lemma {:induction false} SameEmptiness<S, T>(a: seq<seq<S>>, b: seq<seq<T>>)
    requires |a| == |b| && forall t :: 0 <= t < |a| ==> |a[t]| == |b[t]|
    ensures Flatten(a) == [] <==> Flatten(b) == []
  {
    if |a| > 0 {
      SameEmptiness(a[1..], b[1..]);
    }
  }

  /** The customer ids of a list of savings. */
  function SavingIds(s: seq<Saving>): (r: seq<nat>)
    ensures |r| == |s| && forall k :: 0 <= k < |s| ==> r[k] == s[k].1
  {
    seq(|s|, k requires 0 <= k < |s| => s[k].1)
  }

  /** `worst_removal`: the ids of the `q` largest savings (none when `q` is
      not positive, all when `q` exceeds the number of stops). */
  function WorstRemoval(inst: Instance, p: Parameters, s: Solution, q: int): (r: Outcome)
    requires DistShaped(inst) && RoutesInRange(inst, s.routes) && p.truckSpeed != 0.0
    ensures r.Destroyed?
    ensures Flatten(s.routes) == [] ==> r == Destroyed(s, [])
    ensures Flatten(s.routes) != [] ==> r.sol == RemoveAll(s, r.removed)
    ensures |r.removed| == (if q <= 0 || Flatten(s.routes) == [] then 0 else Min(q, |Savings(inst, p, s.routes)|))
  {
    var costs := Savings(inst, p, s.routes);
    if costs == [] then Destroyed(s, [])
    else
      var removed := Largest(costs, q);
      Destroyed(RemoveAll(s, removed), removed)
  }

  /** The ids of the `q` largest savings, largest first (none when `q` is
      not positive, all of them when `q` exceeds their number). */
  function Largest(costs: seq<Saving>, q: int): (r: seq<nat>)
    ensures |r| == if q <= 0 then 0 else Min(q, |costs|)
  {
    var m := Min(q, |costs|);
    SavingIds(SortSavings(costs)[..if m < 0 then 0 else m])
  }

  /** `Largest` picks the ids of savings drawn from `costs`, each at least
      as large (in the sort order) as every saving left behind. */
  lemma LargestDominates(costs: seq<Saving>, q: int)
    ensures exists chosen: seq<Saving> ::
              && SavingIds(chosen) == Largest(costs, q)
              && ChosenFirst(chosen, multiset(costs), NotBelow)
  {
    var sorted := SortSavings(costs);
    var m := Min(q, |costs|);
    var cut := if m < 0 then 0 else m;
    var chosen := sorted[..cut];
    PrefixDominates(sorted, cut, NotBelow);
    assert SavingIds(chosen) == Largest(costs, q);
  }

  /** The ids `worst_removal` takes are those of savings drawn from the
      `costs` list, each at least as large (in the sort order) as every
      saving left behind. */
  lemma WorstRemovalTakesLargest(inst: Instance, p: Parameters, s: Solution, q: int)
    requires DistShaped(inst) && RoutesInRange(inst, s.routes) && p.truckSpeed != 0.0
    requires Flatten(s.routes) != []
    ensures var costs := Savings(inst, p, s.routes);
            exists chosen: seq<Saving> ::
              && SavingIds(chosen) == WorstRemoval(inst, p, s, q).removed
              && ChosenFirst(chosen, multiset(costs), NotBelow)
  {
    var costs := Savings(inst, p, s.routes);
    assert WorstRemoval(inst, p, s, q).removed == Largest(costs, q);
    LargestDominates(costs, q);
  }

  /** A candidate of `related_removal`: (distance from the seed, customer id). */
  type Nearby = (real, nat)

  /** Lexicographic `<=` on candidates, the order of `distances.sort()`. */
  predicate NotAbove(a: Nearby, b: Nearby)
  {
    a.0 < b.0 || (a.0 == b.0 && a.1 <= b.1)
  }

  lemma NotAboveTotal()
    ensures TotalPreorder(NotAbove)
  {
  }

  /** `distances.sort()`. */
  function SortNearby(cands: seq<Nearby>): (r: seq<Nearby>)
    ensures Sorted(r, NotAbove) && multiset(r) == multiset(cands) && |r| == |cands|
  {
    NotAboveTotal();
    SortBy(cands, NotAbove)
  }

  /** The `distances` list of `related_removal`: every stop other than the
      seed, with its distance from the seed, in route order. */
  function Candidates(inst: Instance, seed: nat, all: seq<nat>): (r: seq<Nearby>)
    requires DistShaped(inst) && seed <= |inst.customers| && RouteInRange(inst, all)
    ensures RouteInRange(inst, NearbyIds(r))
    ensures forall k :: 0 <= k < |r| ==> r[k].0 == inst.dist[seed][r[k].1]
  {
    if |all| == 0 then []
    else
      var rest := Candidates(inst, seed, all[1..]);
      if all[0] == seed then rest
      else
        var r := [(inst.dist[seed][all[0]], all[0])] + rest;
        NearbyIdsCons(r[0], rest);
        r
  }

  /** The candidates are the stops other than the seed, in route order. */
  lemma {:induction false} CandidateIds(inst: Instance, seed: nat, all: seq<nat>)
    requires DistShaped(inst) && seed <= |inst.customers| && RouteInRange(inst, all)
    ensures NearbyIds(Candidates(inst, seed, all)) == Without(all, [seed])
  {
    if |all| > 0 {
      CandidateIds(inst, seed, all[1..]);
      var rest := Candidates(inst, seed, all[1..]);
      if all[0] == seed {
        assert Without(all, [seed]) == Without(all[1..], [seed]);
      } else {
        assert Without(all, [seed]) == [all[0]] + Without(all[1..], [seed]);
        NearbyIdsCons((inst.dist[seed][all[0]], all[0]), rest);
      }
    }
  }

  /** A candidate is a served stop other than the seed. */
  lemma CandidateMember(inst: Instance, seed: nat, all: seq<nat>, x: nat)
    requires DistShaped(inst) && seed <= |inst.customers| && RouteInRange(inst, all)
    ensures x in NearbyIds(Candidates(inst, seed, all)) <==> x != seed && x in all
  {
    CandidateIds(inst, seed, all);
    WithoutMember(all, [seed], x);
  }

  /** The customer ids of a list of candidates. A candidate is a pair
      (distance, id) and a saving a triple (saving, id, truck), so the two
      projections cannot share one tuple type. */
  function NearbyIds(s: seq<Nearby>): (r: seq<nat>)
    ensures |r| == |s| && forall k :: 0 <= k < |s| ==> r[k] == s[k].1
  {
    seq(|s|, k requires 0 <= k < |s| => s[k].1)
  }

  /** The ids `related_removal` takes from the stops `all`: the seed, then the
      first candidates in (distance, id) order, up to `q` ids in all. */
  function RelatedIds(inst: Instance, all: seq<nat>, q: int, seedIndex: nat): (r: seq<nat>)
    requires DistShaped(inst) && RouteInRange(inst, all) && seedIndex < |all|
    ensures |r| >= 1 && r[0] == all[seedIndex]
    ensures |r| <= (if q < 1 then 1 else q)
  {
    var seed := all[seedIndex];
    [seed] + Nearest(Candidates(inst, seed, all), Min(q, |all|) - 1)
  }

  /** The ids of the first `n` candidates in (distance, id) order (none when
      `n` is not positive, all of them when `n` exceeds their number). */
  function Nearest(cands: seq<Nearby>, n: int): (r: seq<nat>)
    ensures |r| == if n <= 0 then 0 else Min(n, |cands|)
  {
    var take := Min(n, |cands|);
    NearbyIds(SortNearby(cands)[..if take < 0 then 0 else take])
  }

  /** `Nearest` takes only ids of candidates. */
  lemma NearestAmongCandidates(cands: seq<Nearby>, n: int)
    ensures forall x :: x in Nearest(cands, n) ==> x in NearbyIds(cands)
  {
    var sorted := SortNearby(cands);
    var take := Min(n, |cands|);
    var cut := if take < 0 then 0 else take;
    var r := NearbyIds(sorted[..cut]);
    assert r == Nearest(cands, n);
    forall x | x in r ensures x in NearbyIds(cands) {
      var k :| 0 <= k < |r| && r[k] == x;
      var c := sorted[k];
      assert c in multiset(cands);
      var j :| 0 <= j < |cands| && cands[j] == c;
      assert NearbyIds(cands)[j] == x;
    }
  }

  /** `Nearest` takes candidates each coming, in (distance, id) order,
      before every candidate left behind. */
  lemma NearestDominates(cands: seq<Nearby>, n: int)
    ensures exists chosen: seq<Nearby> ::
              && NearbyIds(chosen) == Nearest(cands, n)
              && ChosenFirst(chosen, multiset(cands), NotAbove)
  {
    var sorted := SortNearby(cands);
    var take := Min(n, |cands|);
    var cut := if take < 0 then 0 else take;
    PrefixDominates(sorted, cut, NotAbove);
    assert NearbyIds(sorted[..cut]) == Nearest(cands, n);
  }

  lemma NearbyIdsCons(x: Nearby, rest: seq<Nearby>)
    ensures NearbyIds([x] + rest) == [x.1] + NearbyIds(rest)
  {
    assert forall k :: 1 <= k < |rest| + 1 ==> ([x] + rest)[k] == rest[k - 1];
  }

  /** `related_removal`, the seed given as its position `seedIndex` in the
      list of all served stops. */
  function RelatedRemoval(inst: Instance, s: Solution, q: int, seedIndex: nat): (r: Outcome)
    requires DistShaped(inst) && RoutesInRange(inst, s.routes)
    requires Flatten(s.routes) == [] || seedIndex < |Flatten(s.routes)|
    ensures r.Destroyed?
    ensures Flatten(s.routes) == [] ==> r == Destroyed(s, [])
    ensures Flatten(s.routes) != [] ==>
              && r.sol == RemoveAll(s, r.removed)
              && |r.removed| >= 1 && r.removed[0] == Flatten(s.routes)[seedIndex]
              && |r.removed| <= (if q < 1 then 1 else q)
  {
    var all := Flatten(s.routes);
    if |all| == 0 then Destroyed(s, [])
    else
      FlattenInRange(inst, s.routes);
      var removed := RelatedIds(inst, all, q, seedIndex);
      Destroyed(RemoveAll(s, removed), removed)
  }

  /** Beyond the seed, `related_removal` takes other served stops. */
  lemma RelatedRemovalTakesOthers(inst: Instance, all: seq<nat>, q: int, seedIndex: nat)
    requires DistShaped(inst) && RouteInRange(inst, all) && seedIndex < |all|
    ensures var r := RelatedIds(inst, all, q, seedIndex);
            forall k :: 1 <= k < |r| ==> r[k] != all[seedIndex] && r[k] in all
  {
    var seed := all[seedIndex];
    var cands := Candidates(inst, seed, all);
    var rest := Nearest(cands, Min(q, |all|) - 1);
    var r := [seed] + rest;
    assert r == RelatedIds(inst, all, q, seedIndex);
    NearestAmongCandidates(cands, Min(q, |all|) - 1);
    forall k | 1 <= k < |r| ensures r[k] != seed && r[k] in all {
      assert r[k] == rest[k - 1];
      CandidateMember(inst, seed, all, r[k]);
    }
  }

  /** The candidates `related_removal` takes are those nearest to the seed:
      each taken one comes, in (distance, id) order, before every one left. */
  lemma RelatedRemovalTakesNearest(inst: Instance, all: seq<nat>, q: int, seedIndex: nat)
    requires DistShaped(inst) && RouteInRange(inst, all) && seedIndex < |all|
    ensures var cands := Candidates(inst, all[seedIndex], all);
            exists chosen: seq<Nearby> ::
              && [all[seedIndex]] + NearbyIds(chosen) == RelatedIds(inst, all, q, seedIndex)
              && ChosenFirst(chosen, multiset(cands), NotAbove)
  {
    var seed := all[seedIndex];
    var cands := Candidates(inst, seed, all);
    var n := Min(q, |all|) - 1;
    assert RelatedIds(inst, all, q, seedIndex) == [seed] + Nearest(cands, n);
    NearestDominates(cands, n);
    var chosen: seq<Nearby> :| NearbyIds(chosen) == Nearest(cands, n) && ChosenFirst(chosen, multiset(cands), NotAbove);
    assert [seed] + NearbyIds(chosen) == RelatedIds(inst, all, q, seedIndex);
  }

  /** With `q` at most one, even zero, `related_removal` takes the seed alone. */
  lemma RelatedRemovalKeepsSeed(inst: Instance, all: seq<nat>, q: int, seedIndex: nat)
    requires DistShaped(inst) && RouteInRange(inst, all) && seedIndex < |all| && q <= 1
    ensures RelatedIds(inst, all, q, seedIndex) == [all[seedIndex]]
  {
  }

  /** With every stop distinct and `q >= 1`, `related_removal` takes exactly
      `min(q, number of stops)` ids. */
  lemma RelatedRemovalCount(inst: Instance, all: seq<nat>, q: int, seedIndex: nat)
    requires DistShaped(inst) && RouteInRange(inst, all) && seedIndex < |all|
    requires q >= 1 && NoDuplicates(all)
    ensures |RelatedIds(inst, all, q, seedIndex)| == Min(q, |all|)
  {
    var seed := all[seedIndex];
    CandidateCount(inst, seed, all);
  }

  /** Over distinct stops, every stop but the seed is a candidate. */
  lemma CandidateCount(inst: Instance, seed: nat, all: seq<nat>)
    requires DistShaped(inst) && seed <= |inst.customers| && RouteInRange(inst, all)
    requires NoDuplicates(all) && seed in all
    ensures |Candidates(inst, seed, all)| == |all| - 1
  {
    CandidateIds(inst, seed, all);
    WithoutDistinct(all, seed);
  }

  /** Dropping id 1 from the single route `[1, 2]` leaves `[2]`. */
  lemma RemovePickupOfPair(s: Solution)
    requires s.routes == [[1, 2]]
    ensures RemoveAll(s, [1]).routes == [[2]]
  {
    assert Without([2], [1]) == [2];
    assert Without([1, 2], [1]) == Without([2], [1]);
  }

  /** Sampling position 0 of the route `[1, 2]` with `q = 1` removes id 1. */
  lemma RandomRemovalOfFirst(s: Solution)
    requires s.routes == [[1, 2]]
    ensures RandomRemoval(s, 1, [0]) == Success(Destroyed(RemoveAll(s, [1]), [1]))
  {
    assert Flatten(s.routes) == [1, 2] by {
      assert s.routes[1..] == [];
    }
    var r := RandomRemoval(s, 1, [0]);
    assert r.value.removed == [1];
  }

  /** No operator consults the pairing: with a pickup and its dropoff on one
      route, sampling the pickup alone leaves the dropoff behind, and the
      route left over fails the feasibility check. */
  lemma RandomRemovalSplitsPair(inst: Instance, p: Parameters, s: Solution)
    requires DistShaped(inst) && UnitWeights(inst.customers) && p.truckSpeed != 0.0 && |inst.customers| >= 2
    requires KindOf(inst, 1) == P && KindOf(inst, 2) == DL && PairIdOf(inst, 1) == PairIdOf(inst, 2)
    requires s.routes == [[1, 2]]
    ensures var r := RandomRemoval(s, 1, [0]);
            && r.Success? && r.value.Destroyed? && r.value.removed == [1]
            && r.value.sol.routes == [[2]]
            && RoutesInRange(inst, r.value.sol.routes) && !CheckRoute(inst, p, r.value.sol.routes[0])
  {
    RandomRemovalOfFirst(s);
    RemovePickupOfPair(s);
    LeadingDropoffFails(inst, p, [2]);
  }

  /** Likewise for `related_removal` with the pickup as seed and `q = 1`. */
  lemma RelatedRemovalSplitsPair(inst: Instance, p: Parameters, s: Solution)
    requires DistShaped(inst) && UnitWeights(inst.customers) && p.truckSpeed != 0.0 && |inst.customers| >= 2
    requires KindOf(inst, 1) == P && KindOf(inst, 2) == DL && PairIdOf(inst, 1) == PairIdOf(inst, 2)
    requires s.routes == [[1, 2]]
    ensures var r := RelatedRemoval(inst, s, 1, 0);
            && r.removed == [1] && r.sol.routes == [[2]]
            && RoutesInRange(inst, r.sol.routes) && !CheckRoute(inst, p, r.sol.routes[0])
  {
    RelatedRemovalOfFirst(inst, s);
    RemovePickupOfPair(s);
    LeadingDropoffFails(inst, p, [2]);
  }

  /** Likewise for `worst_removal` with `q = 1`, whenever dropping the pickup
      saves more truck time than dropping the dropoff, that is, when the
      dropoff alone is served sooner than the pickup alone. */
  lemma WorstRemovalSplitsPair(inst: Instance, p: Parameters, s: Solution)
    requires DistShaped(inst) && UnitWeights(inst.customers) && p.truckSpeed != 0.0 && |inst.customers| >= 2
    requires KindOf(inst, 1) == P && KindOf(inst, 2) == DL && PairIdOf(inst, 1) == PairIdOf(inst, 2)
    requires s.routes == [[1, 2]]
    requires TruckTime(inst, p, [2]) < TruckTime(inst, p, [1])
    ensures var r := WorstRemoval(inst, p, s, 1);
            && r.removed == [1] && r.sol.routes == [[2]]
            && RoutesInRange(inst, r.sol.routes) && !CheckRoute(inst, p, r.sol.routes[0])
  {
    WorstRemovalOfFirst(inst, p, s);
    RemovePickupOfPair(s);
    LeadingDropoffFails(inst, p, [2]);
  }

  /** Under the same timing, `q = 1` on the route `[1, 2]` removes id 1. */
  lemma WorstRemovalOfFirst(inst: Instance, p: Parameters, s: Solution)
    requires DistShaped(inst) && UnitWeights(inst.customers) && p.truckSpeed != 0.0 && |inst.customers| >= 2
    requires s.routes == [[1, 2]]
    requires TruckTime(inst, p, [2]) < TruckTime(inst, p, [1])
    ensures WorstRemoval(inst, p, s, 1) == Destroyed(RemoveAll(s, [1]), [1])
  {
    assert Flatten(s.routes) == [1, 2] by {
      assert s.routes[1..] == [];
    }
    WorstOfTwo(inst, p, s.routes, 1, 2);
  }

  /** On a single route `[x, y]`, `q = 1` removes `x` when the route without
      `x` is the quicker one. */
  lemma WorstOfTwo(inst: Instance, p: Parameters, routes: seq<seq<nat>>, x: nat, y: nat)
    requires DistShaped(inst) && p.truckSpeed != 0.0 && RoutesInRange(inst, routes)
    requires 1 <= x <= |inst.customers| && 1 <= y <= |inst.customers| && routes == [[x, y]]
    requires TruckTime(inst, p, [y]) < TruckTime(inst, p, [x])
    ensures Largest(Savings(inst, p, routes), 1) == [x]
  {
    var t := TruckTime(inst, p, routes[0]);
    var a, b := (t - TruckTime(inst, p, [y]), x, 0), (t - TruckTime(inst, p, [x]), y, 0);
    var costs := Savings(inst, p, routes);
    assert costs == [a, b] by {
      WorstSavingsOfTwo(inst, p, routes, x, y);
    }
    assert Largest([a, b], 1) == [x] by {
      LargerFirst(a, b);
    }
  }

  /** The `costs` list of the route `[x, y]`: dropping `x` leaves `[y]`,
      dropping `y` leaves `[x]`. */
  lemma WorstSavingsOfTwo(inst: Instance, p: Parameters, routes: seq<seq<nat>>, x: nat, y: nat)
    requires DistShaped(inst) && p.truckSpeed != 0.0 && RoutesInRange(inst, routes)
    requires routes == [[x, y]]
    ensures var t := TruckTime(inst, p, routes[0]);
            Savings(inst, p, routes) == [(t - TruckTime(inst, p, [y]), x, 0), (t - TruckTime(inst, p, [x]), y, 0)]
  {
    var route := routes[0];
    assert route[..0] + route[1..] == [y];
    assert route[..1] + route[2..] == [x];
    var row := RouteSavings(inst, p, routes, 0);
    var per := seq(|routes|, t requires 0 <= t < |routes| => RouteSavings(inst, p, routes, t));
    assert per == [row];
    assert Flatten(per) == row + Flatten(per[1..]);
    assert per[1..] == [];
  }

  /** Of two savings, `q = 1` takes the id of the strictly larger one. */
  lemma LargerFirst(a: Saving, b: Saving)
    requires a.0 > b.0
    ensures Largest([a, b], 1) == [a.1]
  {
    var sorted := SortSavings([a, b]);
    var s0, s1 := sorted[0], sorted[1];
    assert sorted == [s0, s1];
    assert NotBelow(s0, s1);
    assert multiset{s0, s1} == multiset{a, b};
    assert s0 == a;
    assert sorted[..1] == [a];
  }

  /** Seeding at position 0 of the route `[1, 2]` with `q = 1` removes id 1. */
  lemma RelatedRemovalOfFirst(inst: Instance, s: Solution)
    requires DistShaped(inst) && |inst.customers| >= 2 && s.routes == [[1, 2]]
    ensures RelatedRemoval(inst, s, 1, 0) == Destroyed(RemoveAll(s, [1]), [1])
  {
    assert Flatten(s.routes) == [1, 2] by {
      assert s.routes[1..] == [];
    }
    RelatedRemovalKeepsSeed(inst, [1, 2], 1, 0);
  }
}
