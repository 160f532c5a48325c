// initial_solution.py: the round-robin construction and the nearest-neighbour
// ordering of each truck route.

module InitialSolution {
  import opened Options
  import opened Seqs
  import opened Model
  import opened Solutions
  import opened Evaluate

  // ---------------------------------------------------------------------
  // Nearest-neighbour ordering
  // ---------------------------------------------------------------------

  /** Every entry of the pairing map joins a pickup to a dropoff of the
      instance. */
  predicate PairsTyped(inst: Instance)
  {
    forall e :: e in inst.pdPairs ==>
      && 1 <= e.0 <= |inst.customers| && inst.customers[e.0 - 1].kind == P
      && 1 <= e.1 <= |inst.customers| && inst.customers[e.1 - 1].kind == DL
  }

  lemma ValidPairsTyped(inst: Instance)
    requires Valid(inst)
    ensures PairsTyped(inst)
  {
    forall e | e in inst.pdPairs
      ensures 1 <= e.0 <= |inst.customers| && inst.customers[e.0 - 1].kind == P
      ensures 1 <= e.1 <= |inst.customers| && inst.customers[e.1 - 1].kind == DL
    {
      PairEntryInRange(inst, e);
    }
  }

  /** Python's `set.remove` keeps the other customers. */
  lemma RemoveInRange(inst: Instance, s: seq<nat>, x: nat)
    requires RouteInRange(inst, s) && x in s
    ensures RouteInRange(inst, RemoveFirst(s, x))
  {
    var rest := RemoveFirst(s, x);
    forall k | 0 <= k < |rest| ensures 1 <= rest[k] <= |inst.customers| {
      assert rest[k] in multiset(rest);
    }
  }

  /** The tie-breaking penalty: a hundredth of the ready time for a D or DL
      customer, nothing for a pickup. */
  function Penalty(inst: Instance, id: nat): real
    requires 1 <= id <= |inst.customers|
  {
    var c := inst.customers[id - 1];
    if c.kind == D || c.kind == DL then c.readyTime * 0.01 else 0.0
  }

  /** The distance from the current stop plus the penalty. */
  function Adjusted(inst: Instance, current: nat, id: nat): real
    requires DistShaped(inst) && current <= |inst.customers| && 1 <= id <= |inst.customers|
  {
    inst.dist[current][id] + Penalty(inst, id)
  }

  /** A DL is skipped while its pickup, found by the reverse lookup of the
      pairing map, is still unvisited; every other customer may come next. */
  predicate Eligible(inst: Instance, unvisited: seq<nat>, id: nat)
    requires 1 <= id <= |inst.customers|
  {
    KindOf(inst, id) == DL ==>
      var pk := PickupOf(inst.pdPairs, id);
      !(pk.Some? && pk.value != 0 && pk.value in unvisited)
  }

  /** The scan over the unvisited customers from position `i`, where `best`
      is the position of the nearest eligible customer before `i`. The
      strict comparison keeps the earliest of equally near customers. */
  function Closest(inst: Instance, current: nat, unvisited: seq<nat>, i: nat, best: Option<nat>): (r: Option<nat>)
    requires DistShaped(inst) && current <= |inst.customers| && RouteInRange(inst, unvisited)
    requires i <= |unvisited| && (best.Some? ==> best.value < i)
    ensures r.Some? ==> r.value < |unvisited|
    decreases |unvisited| - i
  {
    if i == |unvisited| then best
    else Closest(inst, current, unvisited, i + 1, ScanStep(inst, current, unvisited, i, best))
  }

  /** One pass of the scan: customer `i` becomes the best when it is
      eligible and strictly nearer than the best so far. */
  function ScanStep(inst: Instance, current: nat, unvisited: seq<nat>, i: nat, best: Option<nat>): (r: Option<nat>)
    requires DistShaped(inst) && current <= |inst.customers| && RouteInRange(inst, unvisited)
    requires i < |unvisited| && (best.Some? ==> best.value < i)
    ensures r.Some? ==> r.value <= i
  {
    var c := unvisited[i];
    if Eligible(inst, unvisited, c)
       && (best.None? || Adjusted(inst, current, c) < Adjusted(inst, current, unvisited[best.value]))
    then Some(i)
    else best
  }

  /** Position `j` holds the nearest eligible customer among the first `i`,
      and no eligible customer before it is as near. */
  predicate NearestAmong(inst: Instance, current: nat, unvisited: seq<nat>, i: nat, j: nat)
    requires DistShaped(inst) && current <= |inst.customers| && RouteInRange(inst, unvisited)
    requires j < i <= |unvisited|
  {
    && Eligible(inst, unvisited, unvisited[j])
    && (forall k :: 0 <= k < i && Eligible(inst, unvisited, unvisited[k]) ==>
          Adjusted(inst, current, unvisited[j]) <= Adjusted(inst, current, unvisited[k]))
    && (forall k :: 0 <= k < j && Eligible(inst, unvisited, unvisited[k]) ==>
          Adjusted(inst, current, unvisited[j]) < Adjusted(inst, current, unvisited[k]))
  }

  /** No customer among the first `i` is eligible. */
  predicate NoneEligible(inst: Instance, unvisited: seq<nat>, i: nat)
    requires RouteInRange(inst, unvisited) && i <= |unvisited|
  {
    forall k :: 0 <= k < i ==> !Eligible(inst, unvisited, unvisited[k])
  }

  /** What the scan knows before position `i`: `best` is the first nearest
      eligible customer so far, or there is none. */
  predicate ScanSoFar(inst: Instance, current: nat, unvisited: seq<nat>, i: nat, best: Option<nat>)
    requires DistShaped(inst) && current <= |inst.customers| && RouteInRange(inst, unvisited)
    requires i <= |unvisited|
  {
    && (best.Some? ==> best.value < i && NearestAmong(inst, current, unvisited, i, best.value))
    && (best.None? ==> NoneEligible(inst, unvisited, i))
  }

  /** The scan finds the first nearest eligible customer, or nothing when no
      customer is eligible. */
  lemma ClosestMeaning(inst: Instance, current: nat, unvisited: seq<nat>, i: nat, best: Option<nat>)
    requires DistShaped(inst) && current <= |inst.customers| && RouteInRange(inst, unvisited)
    requires i <= |unvisited|
    requires ScanSoFar(inst, current, unvisited, i, best)
    ensures var r := Closest(inst, current, unvisited, i, best);
            && (r.Some? ==> NearestAmong(inst, current, unvisited, |unvisited|, r.value))
            && (r.None? ==> NoneEligible(inst, unvisited, |unvisited|))
  {
    ClosestInvariant(inst, current, unvisited, i, best);
    var r := Closest(inst, current, unvisited, i, best);
    assert ScanSoFar(inst, current, unvisited, |unvisited|, r);
  }

  /** The scan keeps what it knows up to the end of the list. */
  lemma {:induction false} ClosestInvariant(inst: Instance, current: nat, unvisited: seq<nat>, i: nat, best: Option<nat>)
    requires DistShaped(inst) && current <= |inst.customers| && RouteInRange(inst, unvisited)
    requires i <= |unvisited|
    requires ScanSoFar(inst, current, unvisited, i, best)
    ensures ScanSoFar(inst, current, unvisited, |unvisited|, Closest(inst, current, unvisited, i, best))
    decreases |unvisited| - i
  {
    if i < |unvisited| {
      ScanStepKeeps(inst, current, unvisited, i, best);
      ClosestInvariant(inst, current, unvisited, i + 1, ScanStep(inst, current, unvisited, i, best));
    }
  }

  /** One pass of the scan keeps what the scan knows, one position further. */
  lemma ScanStepKeeps(inst: Instance, current: nat, unvisited: seq<nat>, i: nat, best: Option<nat>)
    requires DistShaped(inst) && current <= |inst.customers| && RouteInRange(inst, unvisited)
    requires i < |unvisited|
    requires ScanSoFar(inst, current, unvisited, i, best)
    ensures ScanSoFar(inst, current, unvisited, i + 1, ScanStep(inst, current, unvisited, i, best))
  {
    var c := unvisited[i];
    if Eligible(inst, unvisited, c)
       && (best.None? || Adjusted(inst, current, c) < Adjusted(inst, current, unvisited[best.value])) {
      AmongTake(inst, current, unvisited, i, best);
    } else {
      AmongKeep(inst, current, unvisited, i, best);
    }
  }

  /** A scan step that takes customer `i` leaves it the nearest so far. */
  lemma AmongTake(inst: Instance, current: nat, unvisited: seq<nat>, i: nat, best: Option<nat>)
    requires DistShaped(inst) && current <= |inst.customers| && RouteInRange(inst, unvisited)
    requires i < |unvisited|
    requires ScanSoFar(inst, current, unvisited, i, best)
    requires Eligible(inst, unvisited, unvisited[i])
    requires best.None? || Adjusted(inst, current, unvisited[i]) < Adjusted(inst, current, unvisited[best.value])
    ensures ScanSoFar(inst, current, unvisited, i + 1, Some(i))
  {
    var a := Adjusted(inst, current, unvisited[i]);
    forall k | 0 <= k < i && Eligible(inst, unvisited, unvisited[k])
      ensures a < Adjusted(inst, current, unvisited[k])
    {
      assert best.Some?;
    }
  }

  /** A scan step that passes over customer `i` keeps the nearest so far. */
  lemma AmongKeep(inst: Instance, current: nat, unvisited: seq<nat>, i: nat, best: Option<nat>)
    requires DistShaped(inst) && current <= |inst.customers| && RouteInRange(inst, unvisited)
    requires i < |unvisited|
    requires ScanSoFar(inst, current, unvisited, i, best)
    requires !(Eligible(inst, unvisited, unvisited[i])
               && (best.None? || Adjusted(inst, current, unvisited[i]) < Adjusted(inst, current, unvisited[best.value])))
    ensures ScanSoFar(inst, current, unvisited, i + 1, best)
  {
  }

  /** Some unvisited customer is always eligible: a waiting DL's pickup is
      itself unvisited, and a pickup never waits. */
  lemma SomeEligible(inst: Instance, unvisited: seq<nat>)
    requires PairsTyped(inst) && RouteInRange(inst, unvisited) && |unvisited| > 0
    ensures exists k :: 0 <= k < |unvisited| && Eligible(inst, unvisited, unvisited[k])
  {
    var c := unvisited[0];
    if !Eligible(inst, unvisited, c) {
      var pk := PickupOf(inst.pdPairs, c).value;
      assert (pk, c) in inst.pdPairs;
      var k :| 0 <= k < |unvisited| && unvisited[k] == pk;
      assert KindOf(inst, unvisited[k]) == P;
    }
  }

  /** One step of the loop: the first nearest eligible customer, or the
      first unvisited one when the scan finds none. */
  function Nearest(inst: Instance, current: nat, unvisited: seq<nat>): (r: nat)
    requires DistShaped(inst) && current <= |inst.customers| && RouteInRange(inst, unvisited) && |unvisited| > 0
    ensures r in unvisited
  {
    match Closest(inst, current, unvisited, 0, None)
    case Some(j) => unvisited[j]
    case None => unvisited[0]
  }

  /** The fallback never fires: the step takes the first nearest eligible
      customer. */
  lemma NearestMeaning(inst: Instance, current: nat, unvisited: seq<nat>)
    requires DistShaped(inst) && current <= |inst.customers| && RouteInRange(inst, unvisited) && |unvisited| > 0
    requires PairsTyped(inst)
    ensures exists j :: 0 <= j < |unvisited| && unvisited[j] == Nearest(inst, current, unvisited)
                        && NearestAmong(inst, current, unvisited, |unvisited|, j)
  {
    ClosestMeaning(inst, current, unvisited, 0, None);
    SomeEligible(inst, unvisited);
  }

  /** The step's choice is eligible. */
  lemma NearestEligible(inst: Instance, current: nat, unvisited: seq<nat>)
    requires DistShaped(inst) && current <= |inst.customers| && RouteInRange(inst, unvisited) && |unvisited| > 0
    requires PairsTyped(inst)
    ensures Eligible(inst, unvisited, Nearest(inst, current, unvisited))
  {
    NearestMeaning(inst, current, unvisited);
    var j :| 0 <= j < |unvisited| && unvisited[j] == Nearest(inst, current, unvisited)
             && NearestAmong(inst, current, unvisited, |unvisited|, j);
  }

  /** The loop of nearest_neighbor_route from stop `current`. */
  function NearestFrom(inst: Instance, current: nat, unvisited: seq<nat>): (r: seq<nat>)
    requires DistShaped(inst) && current <= |inst.customers| && RouteInRange(inst, unvisited)
    ensures |r| == |unvisited|
    decreases |unvisited|
  {
    if |unvisited| == 0 then []
    else
      var n := Nearest(inst, current, unvisited);
      var rest := RemoveFirst(unvisited, n);
      RemoveInRange(inst, unvisited, n);
      [n] + NearestFrom(inst, n, rest)
  }

  /** `nearest_neighbor_route`: a list of at most one customer is returned
      as it is; otherwise the set of its customers is visited from the
      depot, nearest first. */
  function NearestNeighborRoute(inst: Instance, customers: seq<nat>): (r: seq<nat>)
    requires DistShaped(inst) && RouteInRange(inst, customers)
    ensures |customers| > 1 ==> multiset(r) == multiset(Dedup(customers))
  {
    if |customers| <= 1 then customers
    else
      var u := Dedup(customers);
      assert RouteInRange(inst, u) by {
        forall k | 0 <= k < |u| ensures 1 <= u[k] <= |inst.customers| {
          assert u[k] in customers;
        }
      }
      NearestFromPermutes(inst, 0, u);
      NearestFrom(inst, 0, u)
  }

  /** The loop visits every unvisited customer once. */
  lemma {:induction false} NearestFromPermutes(inst: Instance, current: nat, unvisited: seq<nat>)
    requires DistShaped(inst) && current <= |inst.customers| && RouteInRange(inst, unvisited)
    ensures multiset(NearestFrom(inst, current, unvisited)) == multiset(unvisited)
    decreases |unvisited|
  {
    if |unvisited| > 0 {
      var n := Nearest(inst, current, unvisited);
      var rest := RemoveFirst(unvisited, n);
      NearestFromStep(inst, current, unvisited);
      NearestFromPermutes(inst, n, rest);
    }
  }

  /** The ordered route holds the same customers as the list, each once when
      the list had more than one; a duplicate-free list is permuted. */
  lemma NearestRoutePermutes(inst: Instance, customers: seq<nat>)
    requires DistShaped(inst) && RouteInRange(inst, customers)
    ensures var r := NearestNeighborRoute(inst, customers);
            && (forall x :: x in r <==> x in customers)
            && (|customers| > 1 ==> NoDuplicates(r) && multiset(r) == multiset(Dedup(customers)))
            && (NoDuplicates(customers) ==> multiset(r) == multiset(customers))
  {
    if |customers| > 1 {
      var u := Dedup(customers);
      assert RouteInRange(inst, u) by {
        forall k | 0 <= k < |u| ensures 1 <= u[k] <= |inst.customers| {
          assert u[k] in customers;
        }
      }
      NearestFromPermutes(inst, 0, u);
      PermutationOfDistinct(u, NearestFrom(inst, 0, u));
    }
  }

  /** The step never picks a DL whose pickup is still unvisited. */
  lemma NearestNotWaiting(inst: Instance, current: nat, unvisited: seq<nat>, x: nat)
    requires DistShaped(inst) && current <= |inst.customers| && RouteInRange(inst, unvisited)
    requires PairsTyped(inst) && x in unvisited
    ensures PickupOf(inst.pdPairs, Nearest(inst, current, unvisited)) != Some(x as int)
  {
    var n := Nearest(inst, current, unvisited);
    NearestEligible(inst, current, unvisited);
    var pk := PickupOf(inst.pdPairs, n);
    if pk.Some? {
      assert (pk.value, n as int) in inst.pdPairs;
    }
  }

  /** One step of the loop, unfolded. */
  lemma NearestFromStep(inst: Instance, current: nat, unvisited: seq<nat>)
    requires DistShaped(inst) && current <= |inst.customers| && RouteInRange(inst, unvisited) && |unvisited| > 0
    ensures var n := Nearest(inst, current, unvisited);
            && n <= |inst.customers| && RouteInRange(inst, RemoveFirst(unvisited, n))
            && NearestFrom(inst, current, unvisited) == [n] + NearestFrom(inst, n, RemoveFirst(unvisited, n))
  {
    RemoveInRange(inst, unvisited, Nearest(inst, current, unvisited));
  }

  /** A DL comes after the pickup the reverse lookup finds for it, when that
      pickup is among the customers. */
  lemma {:induction false} NearestFromPrecedes(inst: Instance, current: nat, unvisited: seq<nat>, i: nat, j: nat)
    requires DistShaped(inst) && current <= |inst.customers| && RouteInRange(inst, unvisited)
    requires PairsTyped(inst) && NoDuplicates(unvisited)
    requires var r := NearestFrom(inst, current, unvisited);
             i < |r| && j < |r| && PickupOf(inst.pdPairs, r[j]) == Some(r[i] as int)
    ensures i < j
    decreases |unvisited|
  {
    var r := NearestFrom(inst, current, unvisited);
    var n := Nearest(inst, current, unvisited);
    var rest := RemoveFirst(unvisited, n);
    NearestFromStep(inst, current, unvisited);
    if j == 0 {
      assert r[i] in unvisited by {
        NearestFromPermutes(inst, current, unvisited);
        assert r[i] in multiset(r);
      }
      NearestNotWaiting(inst, current, unvisited, r[i]);
    } else if i > 0 {
      assert NoDuplicates(rest) by {
        RemoveFirstOfDistinct(unvisited, n);
      }
      NearestFromPrecedes(inst, n, rest, i - 1, j - 1);
    }
  }

  /** The nearest-neighbour route keeps every DL after its pickup. */
  lemma NearestRoutePrecedes(inst: Instance, customers: seq<nat>, i: nat, j: nat)
    requires DistShaped(inst) && RouteInRange(inst, customers) && PairsTyped(inst)
    requires var r := NearestNeighborRoute(inst, customers);
             i < |r| && j < |r| && PickupOf(inst.pdPairs, r[j]) == Some(r[i] as int)
    ensures i < j
  {
    var r := NearestNeighborRoute(inst, customers);
    assert (r[i], r[j]) in inst.pdPairs;
    if |customers| > 1 {
      var u := Dedup(customers);
      assert RouteInRange(inst, u) by {
        forall k | 0 <= k < |u| ensures 1 <= u[k] <= |inst.customers| {
          assert u[k] in customers;
        }
      }
      NearestFromPrecedes(inst, 0, u, i, j);
    }
  }

  /** Removing nothing keeps a list. */
  lemma {:induction false} WithoutNone(s: seq<nat>)
    ensures Without(s, []) == s
  {
    if |s| > 0 {
      WithoutNone(s[1..]);
      assert s == [s[0]] + s[1..];
    }
  }

  /** Removing an element that is not there changes nothing. */
  lemma {:induction false} WithoutAbsent(s: seq<nat>, x: nat, rest: seq<nat>)
    requires x !in s
    ensures Without(s, [x] + rest) == Without(s, rest)
  {
    if |s| > 0 {
      WithoutAbsent(s[1..], x, rest);
    }
  }

  /** Removing `x` from a duplicate-free list, then the rest, is removing
      them all. */
  lemma {:induction false} WithoutFirst(s: seq<nat>, x: nat, rest: seq<nat>)
    requires NoDuplicates(s) && x in s
    ensures Without(s, [x] + rest) == Without(RemoveFirst(s, x), rest)
  {
    assert s == [s[0]] + s[1..];
    if s[0] == x {
      assert x !in s[1..];
      WithoutAbsent(s[1..], x, rest);
    } else {
      WithoutFirst(s[1..], x, rest);
    }
  }

  /** Each stop is the step's choice among the customers not yet visited,
      from the stop before it. */
  lemma {:induction false} NearestFromChoice(inst: Instance, current: nat, unvisited: seq<nat>, k: nat)
    requires DistShaped(inst) && current <= |inst.customers| && RouteInRange(inst, unvisited)
    requires NoDuplicates(unvisited) && k < |unvisited|
    ensures var r := NearestFrom(inst, current, unvisited);
            var left := Without(unvisited, r[..k]);
            var prev := if k == 0 then current else r[k - 1];
            && prev <= |inst.customers| && RouteInRange(inst, left) && |left| == |unvisited| - k
            && r[k] == Nearest(inst, prev, left)
    decreases |unvisited|
  {
    var r := NearestFrom(inst, current, unvisited);
    var n := Nearest(inst, current, unvisited);
    var rest := RemoveFirst(unvisited, n);
    NearestFromStep(inst, current, unvisited);
    var tail := NearestFrom(inst, n, rest);
    if k == 0 {
      WithoutNone(unvisited);
      assert r[..0] == [];
    } else {
      RemoveFirstOfDistinct(unvisited, n);
      NearestFromChoice(inst, n, rest, k - 1);
      ShiftLeft(unvisited, n, tail, k);
    }
  }

  /** The customers left before stop `k` of `[n] + tail` are those left
      before stop `k - 1` of `tail` once `n` is gone. */
  lemma ShiftLeft(s: seq<nat>, n: nat, tail: seq<nat>, k: nat)
    requires NoDuplicates(s) && n in s && 1 <= k <= |tail|
    ensures Without(s, ([n] + tail)[..k]) == Without(RemoveFirst(s, n), tail[..k - 1])
    ensures ([n] + tail)[k] == tail[k - 1]
    ensures k > 1 ==> ([n] + tail)[k - 1] == tail[k - 2]
  {
    var pre := ([n] + tail)[..k];
    assert pre == [n] + tail[..k - 1];
    assert Without(s, pre) == Without(RemoveFirst(s, n), tail[..k - 1]) by {
      WithoutFirst(s, n, tail[..k - 1]);
    }
  }

  // ---------------------------------------------------------------------
  // Round-robin construction
  // ---------------------------------------------------------------------

  /** `[c.id for c in customers if c.type == "D"]`. */
  function DeliveryIds(cs: seq<Customer>): seq<int>
  {
    if |cs| == 0 then []
    else (if cs[0].kind == D then [cs[0].id] else []) + DeliveryIds(cs[1..])
  }

  /** In a well-indexed list the delivery-only ids are customer ids. */
  lemma {:induction false} DeliveryIdsInRange(cs: seq<Customer>, offset: nat, x: int)
    requires forall k :: 0 <= k < |cs| ==> cs[k].id == k + offset + 1
    requires x in DeliveryIds(cs)
    ensures offset + 1 <= x <= offset + |cs|
  {
    if cs[0].kind == D && x == cs[0].id {
    } else {
      assert x in DeliveryIds(cs[1..]);
      DeliveryIdsInRange(cs[1..], offset + 1, x);
    }
  }

  /** The pieces dealt out: a lone delivery-only customer, or a pickup
      followed by its dropoff. */
  function SingleChunks(ids: seq<nat>): (r: seq<seq<nat>>)
    ensures |r| == |ids| && forall i :: 0 <= i < |r| ==> r[i] == [ids[i]]
  {
    seq(|ids|, i requires 0 <= i < |ids| => [ids[i]])
  }

  function PairChunks(pairs: seq<(nat, nat)>): (r: seq<seq<nat>>)
    ensures |r| == |pairs| && forall i :: 0 <= i < |r| ==> r[i] == [pairs[i].0, pairs[i].1]
  {
    seq(|pairs|, i requires 0 <= i < |pairs| => [pairs[i].0, pairs[i].1])
  }

  /** The enumerate loop from piece `i` on: piece `i` goes to the end of
      route `i % K`. */
  function Deal(routes: seq<seq<nat>>, chunks: seq<seq<nat>>, i: nat): (r: seq<seq<nat>>)
    requires |routes| > 0 && i <= |chunks|
    ensures |r| == |routes|
    decreases |chunks| - i
  {
    if i == |chunks| then routes
    else
      var t := i % |routes|;
      Deal(routes[t := routes[t] + chunks[i]], chunks, i + 1)
  }

  /** The pieces from `i` on whose index is `t` modulo `k`, laid end to end. */
  function Column(chunks: seq<seq<nat>>, i: nat, t: nat, k: nat): seq<nat>
    requires k > 0 && i <= |chunks|
    decreases |chunks| - i
  {
    if i == |chunks| then []
    else (if i % k == t then chunks[i] else []) + Column(chunks, i + 1, t, k)
  }

  /** Route `t` ends with exactly the pieces whose index is `t` modulo the
      number of routes, in order. */
  lemma {:induction false} DealColumn(routes: seq<seq<nat>>, chunks: seq<seq<nat>>, i: nat, t: nat)
    requires |routes| > 0 && i <= |chunks| && t < |routes|
    ensures Deal(routes, chunks, i)[t] == routes[t] + Column(chunks, i, t, |routes|)
    decreases |chunks| - i
  {
    if i < |chunks| {
      var k := |routes|;
      var s := i % k;
      var next := routes[s := routes[s] + chunks[i]];
      DealColumn(next, chunks, i + 1, t);
      assert Deal(routes, chunks, i) == Deal(next, chunks, i + 1);
      var later := Column(chunks, i + 1, t, k);
      if s == t {
        assert next[t] == routes[t] + chunks[i];
        assert Column(chunks, i, t, k) == chunks[i] + later;
        assert (routes[t] + chunks[i]) + later == routes[t] + (chunks[i] + later);
      } else {
        assert next[t] == routes[t];
        assert Column(chunks, i, t, k) == [] + later;
      }
    }
  }

  /** Dealing adds every piece once, to some route. */
  lemma {:induction false} DealGrows(routes: seq<seq<nat>>, chunks: seq<seq<nat>>, i: nat)
    requires |routes| > 0 && i <= |chunks|
    ensures multiset(Flatten(Deal(routes, chunks, i))) == multiset(Flatten(routes)) + multiset(Flatten(chunks[i..]))
    decreases |chunks| - i
  {
    if i < |chunks| {
      var t := i % |routes|;
      var next := routes[t := routes[t] + chunks[i]];
      DealGrows(next, chunks, i + 1);
      UpdateGrows(routes, t, routes[t] + chunks[i], chunks[i]);
      assert Flatten(chunks[i..]) == chunks[i] + Flatten(chunks[i + 1..]) by {
        assert chunks[i..][0] == chunks[i] && chunks[i..][1..] == chunks[i + 1..];
      }
    }
  }

  /** The pairing entries as pairs of customer ids. */
  predicate PairsInRange(inst: Instance, pairs: seq<(int, int)>)
  {
    forall i :: 0 <= i < |pairs| ==> 1 <= pairs[i].0 <= |inst.customers| && 1 <= pairs[i].1 <= |inst.customers|
  }

  function AsIds(inst: Instance, pairs: seq<(int, int)>): (r: seq<(nat, nat)>)
    requires PairsInRange(inst, pairs)
    ensures |r| == |pairs| && forall i :: 0 <= i < |r| ==> r[i] == (pairs[i].0 as nat, pairs[i].1 as nat)
  {
    seq(|pairs|, i requires 0 <= i < |pairs| && PairsInRange(inst, pairs) => (pairs[i].0 as nat, pairs[i].1 as nat))
  }

  /** The routes of create_initial_solution before ordering: the shuffled
      delivery-only customers dealt round-robin, then the shuffled pairs
      dealt round-robin, each pickup followed by its dropoff. With no truck
      the first piece fails: `i % 0` divides by zero, and with a negative
      count the index `0` misses the empty route list. */
  function Dealt(inst: Instance, p: Parameters, dOrder: seq<nat>, pairOrder: seq<(int, int)>): (r: Result<seq<seq<nat>>, string>)
    requires PairsInRange(inst, pairOrder)
  {
    if p.numTrucks <= 0 then
      if |dOrder| + |pairOrder| == 0 then Success([])
      else if p.numTrucks == 0 then Failure("integer modulo by zero")
      else Failure("list index out of range")
    else
      var empty := NewSolution(p).routes;
      Success(Deal(Deal(empty, SingleChunks(dOrder), 0), PairChunks(AsIds(inst, pairOrder)), 0))
  }

  /** Every route with customers ordered by nearest_neighbor_route. */
  function OrderRoutes(inst: Instance, routes: seq<seq<nat>>): (r: seq<seq<nat>>)
    requires DistShaped(inst) && RoutesInRange(inst, routes)
    ensures |r| == |routes|
    ensures forall t :: 0 <= t < |r| ==> r[t] == if routes[t] != [] then NearestNeighborRoute(inst, routes[t]) else routes[t]
  {
    seq(|routes|, t requires 0 <= t < |routes| =>
      if routes[t] != [] then NearestNeighborRoute(inst, routes[t]) else routes[t])
  }

  /** Dealt routes hold customer ids. */
  lemma DealtInRange(inst: Instance, p: Parameters, dOrder: seq<nat>, pairOrder: seq<(int, int)>)
    requires PairsInRange(inst, pairOrder) && RouteInRange(inst, dOrder)
    requires Dealt(inst, p, dOrder, pairOrder).Success?
    ensures RoutesInRange(inst, Dealt(inst, p, dOrder, pairOrder).value)
  {
    if p.numTrucks > 0 {
      var routes := Dealt(inst, p, dOrder, pairOrder).value;
      var empty := NewSolution(p).routes;
      var singles, pairs := SingleChunks(dOrder), PairChunks(AsIds(inst, pairOrder));
      var mid := Deal(empty, singles, 0);
      DealGrows(empty, singles, 0);
      DealGrows(mid, pairs, 0);
      AllEmpty(empty);
      forall t | 0 <= t < |routes| ensures RouteInRange(inst, routes[t]) {
        forall k | 0 <= k < |routes[t]| ensures 1 <= routes[t][k] <= |inst.customers| {
          var x := routes[t][k];
          FlattenMember(routes, x);
          assert x in multiset(Flatten(routes));
          ChunksMember(inst, dOrder, pairOrder, x);
        }
      }
    }
  }

  lemma {:induction false} AllEmpty(routes: seq<seq<nat>>)
    requires forall t :: 0 <= t < |routes| ==> routes[t] == []
    ensures Flatten(routes) == []
  {
    if |routes| > 0 {
      AllEmpty(routes[1..]);
    }
  }

  /** What the pieces hold. */
  lemma ChunksMember(inst: Instance, dOrder: seq<nat>, pairOrder: seq<(int, int)>, x: nat)
    requires PairsInRange(inst, pairOrder)
    ensures var singles, pairs := SingleChunks(dOrder), PairChunks(AsIds(inst, pairOrder));
            (x in Flatten(singles[0..]) || x in Flatten(pairs[0..])) <==>
              (x in dOrder || exists i :: 0 <= i < |pairOrder| && (x == pairOrder[i].0 || x == pairOrder[i].1))
  {
    var singles, pairs := SingleChunks(dOrder), PairChunks(AsIds(inst, pairOrder));
    assert singles[0..] == singles && pairs[0..] == pairs;
    FlattenMember(singles, x);
    FlattenMember(pairs, x);
    if x in dOrder {
      var i :| 0 <= i < |dOrder| && dOrder[i] == x;
      assert x in singles[i];
    }
    if exists i :: 0 <= i < |pairOrder| && (x == pairOrder[i].0 || x == pairOrder[i].1) {
      var i :| 0 <= i < |pairOrder| && (x == pairOrder[i].0 || x == pairOrder[i].1);
      assert x in pairs[i];
    }
  }

  /** Route `t` holds exactly the customers of the pieces whose index is
      `t` modulo `k`. */
  lemma {:induction false} ColumnMember(chunks: seq<seq<nat>>, i: nat, t: nat, k: nat, x: nat)
    requires k > 0 && i <= |chunks|
    ensures x in Column(chunks, i, t, k) <==> exists m :: i <= m < |chunks| && m % k == t && x in chunks[m]
    decreases |chunks| - i
  {
    if i < |chunks| {
      ColumnMember(chunks, i + 1, t, k, x);
    }
  }

  /** The delivery-only ids and the pairing entries are customer ids. */
  lemma ShuffledInRange(inst: Instance, dOrder: seq<nat>, pairOrder: seq<(int, int)>)
    requires Valid(inst)
    requires multiset(dOrder) == multiset(DeliveryIds(inst.customers))
    requires multiset(pairOrder) == multiset(inst.pdPairs)
    ensures RouteInRange(inst, dOrder) && PairsInRange(inst, pairOrder)
  {
    forall k | 0 <= k < |dOrder| ensures 1 <= dOrder[k] <= |inst.customers| {
      assert dOrder[k] in multiset(DeliveryIds(inst.customers));
      DeliveryIdsInRange(inst.customers, 0, dOrder[k]);
    }
    forall k | 0 <= k < |pairOrder|
      ensures 1 <= pairOrder[k].0 <= |inst.customers| && 1 <= pairOrder[k].1 <= |inst.customers|
    {
      assert pairOrder[k] in multiset(inst.pdPairs);
      PairEntryInRange(inst, pairOrder[k]);
    }
  }

  /** Ordering keeps each route's customers. */
  lemma OrderRoutesMember(inst: Instance, routes: seq<seq<nat>>, t: nat, x: nat)
    requires DistShaped(inst) && RoutesInRange(inst, routes) && t < |routes|
    ensures x in OrderRoutes(inst, routes)[t] <==> x in routes[t]
  {
    if routes[t] != [] {
      NearestRoutePermutes(inst, routes[t]);
    }
  }

  lemma OrderRoutesInRange(inst: Instance, routes: seq<seq<nat>>)
    requires DistShaped(inst) && RoutesInRange(inst, routes)
    ensures RoutesInRange(inst, OrderRoutes(inst, routes))
  {
    var r := OrderRoutes(inst, routes);
    forall t | 0 <= t < |r| ensures RouteInRange(inst, r[t]) {
      forall k | 0 <= k < |r[t]| ensures 1 <= r[t][k] <= |inst.customers| {
        OrderRoutesMember(inst, routes, t, r[t][k]);
      }
    }
  }

  /** What evaluate_solution needs of the fleet. */
  predicate Ready(inst: Instance, p: Parameters)
  {
    Valid(inst) && p.truckSpeed != 0.0 && (p.numDrones <= 0 || (p.droneCapacity >= 1 && p.droneSpeed != 0.0))
  }

  /** `create_initial_solution`, given the outcomes of its two shuffles: the
      delivery-only ids and the pairing entries, each in shuffled order. */
  function CreateInitialSolution(inst: Instance, p: Parameters, dOrder: seq<nat>, pairOrder: seq<(int, int)>): (r: Result<Solution, string>)
    requires Ready(inst, p)
    requires multiset(dOrder) == multiset(DeliveryIds(inst.customers))
    requires multiset(pairOrder) == multiset(inst.pdPairs)
    ensures r.Success? ==>
              && RoutesInRange(inst, r.value.routes)
              && r.value.makespan == EvaluateSolution(inst, p, NewSolution(p).(routes := r.value.routes)).0
  {
    ShuffledInRange(inst, dOrder, pairOrder);
    match Dealt(inst, p, dOrder, pairOrder)
    case Failure(e) => Failure(e)
    case Success(dealt) =>
      DealtInRange(inst, p, dOrder, pairOrder);
      OrderRoutesInRange(inst, dealt);
      Success(Finish(inst, p, NewSolution(p), OrderRoutes(inst, dealt)))
  }

  /** A successful construction's routes are the dealt routes, each
      ordered by nearest_neighbor_route. */
  lemma InitialRoutes(inst: Instance, p: Parameters, dOrder: seq<nat>, pairOrder: seq<(int, int)>)
    requires Ready(inst, p)
    requires multiset(dOrder) == multiset(DeliveryIds(inst.customers))
    requires multiset(pairOrder) == multiset(inst.pdPairs)
    requires CreateInitialSolution(inst, p, dOrder, pairOrder).Success?
    ensures PairsInRange(inst, pairOrder) && Dealt(inst, p, dOrder, pairOrder).Success?
    ensures RoutesInRange(inst, Dealt(inst, p, dOrder, pairOrder).value)
    ensures CreateInitialSolution(inst, p, dOrder, pairOrder).value.routes
              == OrderRoutes(inst, Dealt(inst, p, dOrder, pairOrder).value)
  {
    ShuffledInRange(inst, dOrder, pairOrder);
    DealtInRange(inst, p, dOrder, pairOrder);
  }

  /** The construction fails exactly when there is something to deal and
      no truck; otherwise it has one route per truck and the makespan
      evaluate_solution gives its routes. */
  lemma InitialFails(inst: Instance, p: Parameters, dOrder: seq<nat>, pairOrder: seq<(int, int)>)
    requires Ready(inst, p)
    requires multiset(dOrder) == multiset(DeliveryIds(inst.customers))
    requires multiset(pairOrder) == multiset(inst.pdPairs)
    ensures var r := CreateInitialSolution(inst, p, dOrder, pairOrder);
            && (r.Failure? <==> p.numTrucks <= 0 && |dOrder| + |pairOrder| > 0)
            && (r.Success? ==>
                  && |r.value.routes| == (if p.numTrucks > 0 then p.numTrucks else 0)
                  && RoutesInRange(inst, r.value.routes)
                  && r.value.makespan == EvaluateSolution(inst, p, NewSolution(p).(routes := r.value.routes)).0)
  {
    ShuffledInRange(inst, dOrder, pairOrder);
    if p.numTrucks > 0 {
      var dealt := Dealt(inst, p, dOrder, pairOrder).value;
      DealtInRange(inst, p, dOrder, pairOrder);
      OrderRoutesInRange(inst, dealt);
    }
  }

  /** Round robin: truck `t` serves exactly the delivery-only customers and
      the pairs whose shuffled index is `t` modulo the number of trucks. */
  lemma InitialRoundRobin(inst: Instance, p: Parameters, dOrder: seq<nat>, pairOrder: seq<(int, int)>, t: nat, x: nat)
    requires Ready(inst, p)
    requires multiset(dOrder) == multiset(DeliveryIds(inst.customers))
    requires multiset(pairOrder) == multiset(inst.pdPairs)
    requires CreateInitialSolution(inst, p, dOrder, pairOrder).Success? && t < |CreateInitialSolution(inst, p, dOrder, pairOrder).value.routes|
    ensures var route := CreateInitialSolution(inst, p, dOrder, pairOrder).value.routes[t];
            x in route <==>
              || (exists m :: 0 <= m < |dOrder| && m % p.numTrucks == t && dOrder[m] == x)
              || (exists m :: 0 <= m < |pairOrder| && m % p.numTrucks == t && (pairOrder[m].0 == x || pairOrder[m].1 == x))
  {
    InitialRoutes(inst, p, dOrder, pairOrder);
    var dealt := Dealt(inst, p, dOrder, pairOrder).value;
    OrderRoutesMember(inst, dealt, t, x);
    var empty := NewSolution(p).routes;
    var singles, pairs := SingleChunks(dOrder), PairChunks(AsIds(inst, pairOrder));
    var mid := Deal(empty, singles, 0);
    DealColumn(mid, pairs, 0, t);
    DealColumn(empty, singles, 0, t);
    ColumnMember(singles, 0, t, p.numTrucks, x);
    ColumnMember(pairs, 0, t, p.numTrucks, x);
  }

  /** Every delivery-only customer and both ends of every pairing entry are
      served, and nothing else. */
  lemma InitialCovers(inst: Instance, p: Parameters, dOrder: seq<nat>, pairOrder: seq<(int, int)>, x: nat)
    requires Ready(inst, p)
    requires multiset(dOrder) == multiset(DeliveryIds(inst.customers))
    requires multiset(pairOrder) == multiset(inst.pdPairs)
    requires CreateInitialSolution(inst, p, dOrder, pairOrder).Success?
    ensures var routes := CreateInitialSolution(inst, p, dOrder, pairOrder).value.routes;
            x in Flatten(routes) <==>
              x in DeliveryIds(inst.customers) || exists e :: e in inst.pdPairs && (e.0 == x || e.1 == x)
  {
    ShuffledInRange(inst, dOrder, pairOrder);
    var dealt := Dealt(inst, p, dOrder, pairOrder).value;
    DealtInRange(inst, p, dOrder, pairOrder);
    OrderRoutesFlatten(inst, dealt, x);
    DealtCovers(inst, p, dOrder, pairOrder, x);
    assert x in dOrder <==> x in DeliveryIds(inst.customers) by {
      assert x in dOrder <==> x in multiset(dOrder);
    }
    SameEntries(inst, pairOrder, x);
  }

  /** Ordering keeps the customers of the fleet. */
  lemma OrderRoutesFlatten(inst: Instance, routes: seq<seq<nat>>, x: nat)
    requires DistShaped(inst) && RoutesInRange(inst, routes)
    ensures x in Flatten(OrderRoutes(inst, routes)) <==> x in Flatten(routes)
  {
    var r := OrderRoutes(inst, routes);
    FlattenMember(r, x);
    FlattenMember(routes, x);
    forall t | 0 <= t < |routes| ensures x in r[t] <==> x in routes[t] {
      OrderRoutesMember(inst, routes, t, x);
    }
  }

  /** The dealt routes hold the pieces and nothing else. */
  lemma DealtCovers(inst: Instance, p: Parameters, dOrder: seq<nat>, pairOrder: seq<(int, int)>, x: nat)
    requires PairsInRange(inst, pairOrder) && Dealt(inst, p, dOrder, pairOrder).Success?
    ensures x in Flatten(Dealt(inst, p, dOrder, pairOrder).value) <==>
              (x in dOrder || exists i :: 0 <= i < |pairOrder| && (x == pairOrder[i].0 || x == pairOrder[i].1))
  {
    var dealt := Dealt(inst, p, dOrder, pairOrder).value;
    if p.numTrucks > 0 {
      var empty := NewSolution(p).routes;
      var singles, pairs := SingleChunks(dOrder), PairChunks(AsIds(inst, pairOrder));
      var mid := Deal(empty, singles, 0);
      DealGrows(empty, singles, 0);
      DealGrows(mid, pairs, 0);
      AllEmpty(empty);
      ChunksMember(inst, dOrder, pairOrder, x);
      assert x in Flatten(dealt) <==> x in multiset(Flatten(dealt));
    } else {
      assert Flatten(dealt) == [];
    }
  }

  /** A shuffle of the pairing entries names the same customers. */
  lemma SameEntries(inst: Instance, pairOrder: seq<(int, int)>, x: nat)
    requires multiset(pairOrder) == multiset(inst.pdPairs)
    ensures (exists i :: 0 <= i < |pairOrder| && (x == pairOrder[i].0 || x == pairOrder[i].1))
            <==> exists e :: e in inst.pdPairs && (e.0 == x || e.1 == x)
  {
    if exists e :: e in inst.pdPairs && (e.0 == x || e.1 == x) {
      var e :| e in inst.pdPairs && (e.0 == x || e.1 == x);
      assert e in multiset(pairOrder);
      var i :| 0 <= i < |pairOrder| && pairOrder[i] == e;
    }
    if exists i :: 0 <= i < |pairOrder| && (x == pairOrder[i].0 || x == pairOrder[i].1) {
      var i :| 0 <= i < |pairOrder| && (x == pairOrder[i].0 || x == pairOrder[i].1);
      assert pairOrder[i] in multiset(inst.pdPairs);
    }
  }

  /** In every route each dropoff comes after the pickup the reverse lookup
      of the pairing map finds for it. */
  lemma InitialPrecedes(inst: Instance, p: Parameters, dOrder: seq<nat>, pairOrder: seq<(int, int)>, t: nat, i: nat, j: nat)
    requires Ready(inst, p)
    requires multiset(dOrder) == multiset(DeliveryIds(inst.customers))
    requires multiset(pairOrder) == multiset(inst.pdPairs)
    requires var r := CreateInitialSolution(inst, p, dOrder, pairOrder);
             r.Success? && t < |r.value.routes| && i < |r.value.routes[t]| && j < |r.value.routes[t]|
             && PickupOf(inst.pdPairs, r.value.routes[t][j]) == Some(r.value.routes[t][i] as int)
    ensures i < j
  {
    InitialRoutes(inst, p, dOrder, pairOrder);
    ValidPairsTyped(inst);
    OrderedPrecedes(inst, Dealt(inst, p, dOrder, pairOrder).value, t, i, j);
  }

  /** Ordering every route keeps each DL after its pickup. */
  lemma OrderedPrecedes(inst: Instance, routes: seq<seq<nat>>, t: nat, i: nat, j: nat)
    requires DistShaped(inst) && RoutesInRange(inst, routes) && PairsTyped(inst)
    requires var r := OrderRoutes(inst, routes);
             t < |r| && i < |r[t]| && j < |r[t]| && PickupOf(inst.pdPairs, r[t][j]) == Some(r[t][i] as int)
    ensures i < j
  {
    var route := OrderRoutes(inst, routes)[t];
    assert (route[i], route[j]) in inst.pdPairs;
    if routes[t] != [] {
      NearestRoutePrecedes(inst, routes[t], i, j);
    }
  }
}
