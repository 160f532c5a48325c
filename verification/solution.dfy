/** Solutions (one route of customer ids per truck, the depot implicit at both
    ends, plus drone trips and the makespan) and the route feasibility check. */
module Solutions {
  import opened Seqs
  import opened Model

  /** A drone resupply trip: the items it carries, the truck and stop where it
      meets that truck, and its timing. */
  datatype DroneTrip = DroneTrip(
    items: seq<nat>,
    meetTruck: nat,
    meetNode: nat,
    departTime: real,
    returnTime: real,
    flightTime: real)

  /** A makespan; `Infinite` is Python's `float('inf')`. */
  datatype Makespan = Finite(value: real) | Infinite

  datatype Solution = Solution(routes: seq<seq<nat>>, droneTrips: seq<DroneTrip>, makespan: Makespan)

  /** A fresh solution: one empty route per truck, no drone trips, infinite makespan. */
  function NewSolution(p: Parameters): (s: Solution)
    ensures |s.routes| == (if p.numTrucks > 0 then p.numTrucks else 0)
    ensures forall t :: 0 <= t < |s.routes| ==> s.routes[t] == []
    ensures s.droneTrips == [] && s.makespan == Infinite
  {
    Solution(seq(if p.numTrucks > 0 then p.numTrucks else 0, _ => []), [], Infinite)
  }

  /** Every stop is a customer id of the instance. */
  predicate RouteInRange(inst: Instance, route: seq<nat>)
  {
    forall k :: 0 <= k < |route| ==> 1 <= route[k] <= |inst.customers|
  }

  predicate RoutesInRange(inst: Instance, routes: seq<seq<nat>>)
  {
    forall t :: 0 <= t < |routes| ==> RouteInRange(inst, routes[t])
  }

  lemma AppendInRange(inst: Instance, a: seq<nat>, b: seq<nat>)
    requires RouteInRange(inst, a) && RouteInRange(inst, b)
    ensures RouteInRange(inst, a + b)
  {
  }

  lemma UpdateInRange(inst: Instance, routes: seq<seq<nat>>, t: nat, route: seq<nat>)
    requires RoutesInRange(inst, routes) && t < |routes| && RouteInRange(inst, route)
    ensures RoutesInRange(inst, routes[t := route])
  {
  }

  function KindOf(inst: Instance, id: nat): Kind
    requires 1 <= id <= |inst.customers|
  {
    inst.customers[id - 1].kind
  }

  function PairIdOf(inst: Instance, id: nat): int
    requires 1 <= id <= |inst.customers|
  {
    inst.customers[id - 1].pairId
  }

  /** The walk of `check_truck_route` over the stops still to visit. It
      accumulates a travel time that no test reads, the load (+weight at a P,
      -weight at a DL) and the pairing ids already picked up. */
  function CheckWalk(inst: Instance, p: Parameters, rest: seq<nat>, prev: nat, load: int, time: real, served: set<int>): bool
    requires DistShaped(inst) && RouteInRange(inst, rest) && prev <= |inst.customers|
    requires p.truckSpeed != 0.0
    decreases |rest|
  {
    if |rest| == 0 then true
    else
      var id := rest[0];
      var c := inst.customers[id - 1];
      var time' := Arrival(inst, p, prev, id, time) + p.serviceTime;
      if c.kind == P then
        var load' := load + c.weight;
        if load' > p.truckCapacity then false
        else CheckWalk(inst, p, rest[1..], id, load', time', served + {c.pairId})
      else if c.kind == DL then
        if c.pairId !in served then false
        else
          var load' := load - c.weight;
          if load' > p.truckCapacity then false
          else CheckWalk(inst, p, rest[1..], id, load', time', served)
      else if load > p.truckCapacity then false
      else CheckWalk(inst, p, rest[1..], id, load, time', served)
  }

  /** `check_truck_route`. */
  function CheckRoute(inst: Instance, p: Parameters, route: seq<nat>): bool
    requires DistShaped(inst) && RouteInRange(inst, route)
    requires p.truckSpeed != 0.0
  {
    if |route| == 0 then true else CheckWalk(inst, p, route, 0, 0, 0.0, {})
  }

  /** Load change at one stop, counted in units: +1 at a pickup, -1 at a dropoff. */
  function LoadChange(k: Kind): int
  {
    if k == P then 1 else if k == DL then -1 else 0
  }

  /** Load on board after serving `stops`: pickups so far minus dropoffs so far. */
  function Load(inst: Instance, stops: seq<nat>): int
    requires RouteInRange(inst, stops)
  {
    if |stops| == 0 then 0
    else Load(inst, stops[..|stops| - 1]) + LoadChange(KindOf(inst, stops[|stops| - 1]))
  }

  /** Some stop of `stops` is a pickup with pairing id `pid`. */
  predicate PickedUp(inst: Instance, stops: seq<nat>, pid: int)
    requires RouteInRange(inst, stops)
  {
    exists j :: 0 <= j < |stops| && KindOf(inst, stops[j]) == P && PairIdOf(inst, stops[j]) == pid
  }

  /** Stop k passes the check: a dropoff is preceded by a pickup with its
      pairing id, and the load after the stop is within the truck capacity. */
  predicate StopOk(inst: Instance, p: Parameters, route: seq<nat>, k: nat)
    requires RouteInRange(inst, route) && k < |route|
  {
    && (KindOf(inst, route[k]) == DL ==> PickedUp(inst, route[..k], PairIdOf(inst, route[k])))
    && Load(inst, route[..k + 1]) <= p.truckCapacity
  }

  /** The pairing ids picked up along `stops`: the `pickup_served` keys. */
  function PickupPairs(inst: Instance, stops: seq<nat>): set<int>
    requires RouteInRange(inst, stops)
  {
    if |stops| == 0 then {}
    else
      var last := stops[|stops| - 1];
      PickupPairs(inst, stops[..|stops| - 1]) + (if KindOf(inst, last) == P then {PairIdOf(inst, last)} else {})
  }

  lemma {:induction false} PickupPairsMeaning(inst: Instance, stops: seq<nat>, pid: int)
    requires RouteInRange(inst, stops)
    ensures pid in PickupPairs(inst, stops) <==> PickedUp(inst, stops, pid)
  {
    if |stops| > 0 {
      var init := stops[..|stops| - 1];
      PickupPairsMeaning(inst, init, pid);
      assert forall j :: 0 <= j < |init| ==> init[j] == stops[j];
      if PickedUp(inst, stops, pid) {
        var j :| 0 <= j < |stops| && KindOf(inst, stops[j]) == P && PairIdOf(inst, stops[j]) == pid;
        if j < |init| {
          assert PickedUp(inst, init, pid);
        }
      }
    }
  }

  /** One step of the walk passes exactly when StopOk holds at that stop. */
  lemma StepMeaning(inst: Instance, p: Parameters, route: seq<nat>, i: nat, load: int, served: set<int>)
    requires DistShaped(inst) && RouteInRange(inst, route) && i < |route|
    requires load == Load(inst, route[..i])
    requires served == PickupPairs(inst, route[..i])
    ensures Load(inst, route[..i + 1]) == load + LoadChange(KindOf(inst, route[i]))
    ensures PickupPairs(inst, route[..i + 1]) ==
              if KindOf(inst, route[i]) == P then served + {PairIdOf(inst, route[i])} else served
    ensures StopOk(inst, p, route, i) <==>
              && (KindOf(inst, route[i]) == DL ==> PairIdOf(inst, route[i]) in served)
              && load + LoadChange(KindOf(inst, route[i])) <= p.truckCapacity
  {
    assert route[..i + 1][..i] == route[..i];
    assert route[..i + 1][i] == route[i];
    PickupPairsMeaning(inst, route[..i], PairIdOf(inst, route[i]));
  }

  /** One unfolding of the walk, with the weight of the stop taken as one. */
  lemma WalkUnfold(inst: Instance, p: Parameters, rest: seq<nat>, prev: nat, load: int, time: real, served: set<int>)
    requires DistShaped(inst) && UnitWeights(inst.customers) && RouteInRange(inst, rest) && prev <= |inst.customers|
    requires p.truckSpeed != 0.0
    requires |rest| > 0
    ensures var c := inst.customers[rest[0] - 1];
            CheckWalk(inst, p, rest, prev, load, time, served) ==
              ((c.kind == DL ==> c.pairId in served)
              && load + LoadChange(c.kind) <= p.truckCapacity
              && CheckWalk(inst, p, rest[1..], rest[0], load + LoadChange(c.kind),
                           Arrival(inst, p, prev, rest[0], time) + p.serviceTime,
                           if c.kind == P then served + {c.pairId} else served))
  {
    assert inst.customers[rest[0] - 1].weight == 1;
  }

  lemma {:induction false} WalkMeaning(inst: Instance, p: Parameters, route: seq<nat>, i: nat, prev: nat, load: int, time: real, served: set<int>)
    requires DistShaped(inst) && UnitWeights(inst.customers) && RouteInRange(inst, route) && prev <= |inst.customers|
    requires p.truckSpeed != 0.0
    requires i <= |route|
    requires load == Load(inst, route[..i])
    requires served == PickupPairs(inst, route[..i])
    ensures CheckWalk(inst, p, route[i..], prev, load, time, served) <==> forall k :: i <= k < |route| ==> StopOk(inst, p, route, k)
    decreases |route| - i
  {
    if i < |route| {
      var id := route[i];
      var c := inst.customers[id - 1];
      StepMeaning(inst, p, route, i, load, served);
      var served' := if c.kind == P then served + {c.pairId} else served;
      var time' := Arrival(inst, p, prev, id, time) + p.serviceTime;
      WalkMeaning(inst, p, route, i + 1, id, load + LoadChange(c.kind), time', served');
      assert route[i..][0] == id;
      assert route[i..][1..] == route[i + 1..];
      WalkUnfold(inst, p, route[i..], prev, load, time, served);
      assert (forall k :: i <= k < |route| ==> StopOk(inst, p, route, k)) <==>
             StopOk(inst, p, route, i) && (forall k :: i + 1 <= k < |route| ==> StopOk(inst, p, route, k));
    }
  }

  /** What `check_truck_route` decides: every stop passes StopOk. It returns
      False exactly when some dropoff comes before any pickup with its
      pairing id, or when the load after some stop exceeds the capacity;
      the load is the number of pickups minus the number of dropoffs so far,
      so a D stop leaves it unchanged. */
  lemma CheckRouteMeaning(inst: Instance, p: Parameters, route: seq<nat>)
    requires DistShaped(inst) && UnitWeights(inst.customers) && RouteInRange(inst, route)
    requires p.truckSpeed != 0.0
    ensures CheckRoute(inst, p, route) <==> forall k :: 0 <= k < |route| ==> StopOk(inst, p, route, k)
  {
    if |route| > 0 {
      assert route[..0] == [];
      assert route[0..] == route;
      WalkMeaning(inst, p, route, 0, 0, 0, 0.0, {});
    }
  }

  /** Two instances that agree on the kind and pairing id of every customer. */
  predicate SameKindsAndPairs(a: Instance, b: Instance)
  {
    && |a.customers| == |b.customers|
    && forall k :: 0 <= k < |a.customers| ==> a.customers[k].kind == b.customers[k].kind && a.customers[k].pairId == b.customers[k].pairId
  }

  lemma {:induction false} LoadSameKinds(a: Instance, b: Instance, stops: seq<nat>)
    requires SameKindsAndPairs(a, b) && RouteInRange(a, stops)
    ensures RouteInRange(b, stops) && Load(a, stops) == Load(b, stops)
  {
    if |stops| > 0 {
      LoadSameKinds(a, b, stops[..|stops| - 1]);
    }
  }

  /** The check reads no distance, speed or ready time: the time it
      accumulates is never consulted, so two instances with the same kinds
      and pairing ids and two parameter sets with the same capacity give the
      same answer. */
  lemma CheckRouteIgnoresTiming(a: Instance, b: Instance, pa: Parameters, pb: Parameters, route: seq<nat>)
    requires Valid(a) && Valid(b) && SameKindsAndPairs(a, b) && RouteInRange(a, route)
    requires pa.truckSpeed != 0.0 && pb.truckSpeed != 0.0 && pa.truckCapacity == pb.truckCapacity
    ensures RouteInRange(b, route) && CheckRoute(a, pa, route) == CheckRoute(b, pb, route)
  {
    assert RouteInRange(b, route);
    CheckRouteMeaning(a, pa, route);
    CheckRouteMeaning(b, pb, route);
    forall k | 0 <= k < |route| ensures StopOk(a, pa, route, k) == StopOk(b, pb, route, k) {
      StopOkSameKinds(a, b, pa, pb, route, k);
    }
  }

  lemma StopOkSameKinds(a: Instance, b: Instance, pa: Parameters, pb: Parameters, route: seq<nat>, k: nat)
    requires SameKindsAndPairs(a, b) && RouteInRange(a, route) && RouteInRange(b, route)
    requires pa.truckCapacity == pb.truckCapacity && k < |route|
    ensures StopOk(a, pa, route, k) == StopOk(b, pb, route, k)
  {
    LoadSameKinds(a, b, route[..k + 1]);
    assert PickedUp(a, route[..k], PairIdOf(a, route[k])) == PickedUp(b, route[..k], PairIdOf(b, route[k]));
  }

  /** The check never asks for a non-negative load: a second dropoff of an
      already delivered pair passes and leaves the load at -1. */
  lemma CheckRouteAllowsNegativeLoad(inst: Instance, p: Parameters, a: nat, b: nat)
    requires DistShaped(inst) && UnitWeights(inst.customers) && p.truckSpeed != 0.0 && p.truckCapacity >= 1
    requires 1 <= a <= |inst.customers| && 1 <= b <= |inst.customers|
    requires KindOf(inst, a) == P && KindOf(inst, b) == DL && PairIdOf(inst, a) == PairIdOf(inst, b)
    ensures CheckRoute(inst, p, [a, b, b]) && Load(inst, [a, b, b]) == -1
  {
    var route := [a, b, b];
    assert route[..1] == [a] && route[..2] == [a, b] && route[..3] == route;
    assert [a, b][..1] == [a] && [a][..0] == [] && route[..0] == [];
    assert Load(inst, [a]) == 1;
    assert Load(inst, [a, b]) == 0;
    assert Load(inst, route) == -1;
    assert StopOk(inst, p, route, 0);
    assert StopOk(inst, p, route, 1) by {
      assert route[..1][0] == a;
      assert PickedUp(inst, route[..1], PairIdOf(inst, b));
    }
    assert StopOk(inst, p, route, 2) by {
      assert route[..2][0] == a;
      assert PickedUp(inst, route[..2], PairIdOf(inst, b));
    }
    assert CheckRoute(inst, p, route) by {
      CheckRouteMeaning(inst, p, route);
    }
  }

  /** Nor does it ask the load to return to zero: a pickup whose dropoff is
      elsewhere passes with one unit still on board. */
  lemma CheckRouteAllowsOpenLoad(inst: Instance, p: Parameters, a: nat)
    requires DistShaped(inst) && UnitWeights(inst.customers) && p.truckSpeed != 0.0 && p.truckCapacity >= 1
    requires 1 <= a <= |inst.customers| && KindOf(inst, a) == P
    ensures CheckRoute(inst, p, [a]) && Load(inst, [a]) == 1
  {
    assert [a][..0] == [];
  }

  /** A route that starts with a dropoff fails: no pickup can precede it. */
  lemma LeadingDropoffFails(inst: Instance, p: Parameters, route: seq<nat>)
    requires DistShaped(inst) && UnitWeights(inst.customers) && RouteInRange(inst, route) && p.truckSpeed != 0.0
    requires |route| > 0 && KindOf(inst, route[0]) == DL
    ensures !CheckRoute(inst, p, route)
  {
    CheckRouteMeaning(inst, p, route);
    assert route[..0] == [];
    assert !StopOk(inst, p, route, 0);
  }

  /** The ids served by some truck. */
  function Served(routes: seq<seq<nat>>): set<nat>
  {
    set x | x in Flatten(routes)
  }

  /** `is_feasible`: as many distinct ids are served as there are customers,
      and every route passes the check. */
  predicate IsFeasible(inst: Instance, p: Parameters, s: Solution)
    requires Valid(inst) && RoutesInRange(inst, s.routes)
    requires p.truckSpeed != 0.0
  {
    && |Served(s.routes)| == |inst.customers|
    && forall t :: 0 <= t < |s.routes| ==> CheckRoute(inst, p, s.routes[t])
  }

  /** The ids 1..n. */
  function IdRange(n: nat): (r: set<nat>)
    ensures forall x :: x in r <==> 1 <= x <= n
    ensures |r| == n
  {
    if n == 0 then {} else IdRange(n - 1) + {n}
  }

  lemma {:induction false} FlattenInRange(inst: Instance, routes: seq<seq<nat>>)
    requires RoutesInRange(inst, routes)
    ensures RouteInRange(inst, Flatten(routes))
  {
    if |routes| > 0 {
      FlattenInRange(inst, routes[1..]);
      var a, b := routes[0], Flatten(routes[1..]);
      assert forall k :: 0 <= k < |a + b| ==> (a + b)[k] == if k < |a| then a[k] else b[k - |a|];
    }
  }

  lemma ServedInRange(inst: Instance, routes: seq<seq<nat>>)
    requires RoutesInRange(inst, routes)
    ensures Served(routes) <= IdRange(|inst.customers|)
  {
    FlattenInRange(inst, routes);
    var all := Flatten(routes);
    forall x | x in Served(routes) ensures x in IdRange(|inst.customers|) {
      assert x in all;
      var k :| 0 <= k < |all| && all[k] == x;
    }
  }

  /** Every customer 1..n is on some route. */
  predicate AllServed(inst: Instance, routes: seq<seq<nat>>)
  {
    forall id: nat :: 1 <= id <= |inst.customers| ==> id in Flatten(routes)
  }

  /** The count test of `is_feasible` means that every customer 1..n is on
      some route (ids being in range): feasibility is "all served and every
      route passes the check". */
  lemma FeasibleMeansAllServed(inst: Instance, p: Parameters, s: Solution)
    requires Valid(inst) && RoutesInRange(inst, s.routes)
    requires p.truckSpeed != 0.0
    ensures IsFeasible(inst, p, s) <==>
              AllServed(inst, s.routes) && forall t :: 0 <= t < |s.routes| ==> CheckRoute(inst, p, s.routes[t])
  {
    var n := |inst.customers|;
    var served := Served(s.routes);
    ServedInRange(inst, s.routes);
    if |served| == n {
      var missing := IdRange(n) - served;
      assert |IdRange(n)| == |served| + |missing| by {
        assert IdRange(n) == served + missing;
        assert served !! missing;
      }
      assert missing == {};
      forall id: nat | 1 <= id <= n ensures id in Flatten(s.routes) {
        assert id in IdRange(n);
        assert id in served;
      }
      assert AllServed(inst, s.routes);
    }
    if AllServed(inst, s.routes) {
      forall id | id in IdRange(n) ensures id in served {
        assert id in Flatten(s.routes);
      }
      assert served == IdRange(n);
      assert |served| == n;
    }
  }

  /** Feasibility does not demand that a customer is served only once: the
      same delivery on two trucks passes. */
  lemma FeasibleAllowsRepeatedStop(inst: Instance, p: Parameters)
    requires Valid(inst) && |inst.customers| == 1 && inst.customers[0].kind == D
    requires p.truckSpeed != 0.0 && p.truckCapacity >= 0
    ensures IsFeasible(inst, p, Solution([[1], [1]], [], Infinite))
  {
    var routes: seq<seq<nat>> := [[1], [1]];
    assert Flatten(routes) == [1, 1] by {
      assert routes[1..][1..] == [];
    }
    assert Served(routes) == {1};
    assert [1][..0] == [];
  }
}
