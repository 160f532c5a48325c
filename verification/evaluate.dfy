/** The evaluator: truck completion time, the per-stop truck timeline, drone
    resupply trips for delivery stops and the makespan. */
module Evaluate {
  import opened Seqs
  import opened Model
  import opened Solutions

  /** One timeline entry: the stop, when the truck arrives there and when it leaves. */
  datatype Visit = Visit(customer: nat, arrival: real, departure: real)

  /** The timeline of the stops `route` after leaving node `prev` at time `t`. */
  function TimelineFrom(inst: Instance, p: Parameters, prev: nat, t: real, route: seq<nat>): (tl: seq<Visit>)
    requires DistShaped(inst) && RouteInRange(inst, route) && prev <= |inst.customers|
    requires p.truckSpeed != 0.0
    ensures |tl| == |route|
    decreases |route|
  {
    if |route| == 0 then []
    else
      var a := Arrival(inst, p, prev, route[0], t);
      [Visit(route[0], a, a + p.serviceTime)] + TimelineFrom(inst, p, route[0], a + p.serviceTime, route[1..])
  }

  /** Entry `i` of the timeline is stop `i` of the route, left once its
      service time has passed; the truck reaches it by driving from the node
      before it (`prev` for the first stop), leaving when that node's service
      ends (at `t` for the first stop). */
  lemma {:induction false} TimelineEntryAt(inst: Instance, p: Parameters, prev: nat, t: real, route: seq<nat>, i: nat)
    requires DistShaped(inst) && RouteInRange(inst, route) && prev <= |inst.customers|
    requires p.truckSpeed != 0.0 && i < |route|
    ensures var tl := TimelineFrom(inst, p, prev, t, route);
            && tl[i].customer == route[i]
            && tl[i].departure == tl[i].arrival + p.serviceTime
            && (i == 0 ==> tl[0].arrival == Arrival(inst, p, prev, route[0], t))
            && (i > 0 ==> tl[i].arrival == Arrival(inst, p, route[i - 1], route[i], tl[i - 1].departure))
    decreases i
  {
    var a := Arrival(inst, p, prev, route[0], t);
    TimelineStep(inst, p, prev, t, route, i);
    if i > 0 {
      var tl := TimelineFrom(inst, p, prev, t, route);
      var tail := TimelineFrom(inst, p, route[0], a + p.serviceTime, route[1..]);
      TimelineEntryAt(inst, p, route[0], a + p.serviceTime, route[1..], i - 1);
      TimelineStep(inst, p, prev, t, route, i - 1);
      if i > 1 {
        SameArrival(inst, p, route[1..][i - 2], route[1..][i - 1], tail[i - 2].departure,
                    route[i - 1], route[i], tl[i - 1].departure, tl[i].arrival);
      } else {
        SameArrival(inst, p, route[0], route[1..][0], a + p.serviceTime,
                    route[0], route[1], tl[0].departure, tl[1].arrival);
      }
    }
  }

  /** Entry `i` of the timeline: the first stop is served on arrival from
      `prev`, and every later entry is the matching entry of the timeline
      that starts from the first stop once its service ends. */
  lemma TimelineStep(inst: Instance, p: Parameters, prev: nat, t: real, route: seq<nat>, i: nat)
    requires DistShaped(inst) && RouteInRange(inst, route) && prev <= |inst.customers|
    requires p.truckSpeed != 0.0 && i < |route|
    ensures var a := Arrival(inst, p, prev, route[0], t);
            var tl := TimelineFrom(inst, p, prev, t, route);
            && (i == 0 ==> tl[0] == Visit(route[0], a, a + p.serviceTime))
            && (i > 0 ==> tl[i] == TimelineFrom(inst, p, route[0], a + p.serviceTime, route[1..])[i - 1])
  {
  }

  lemma SameArrival(inst: Instance, p: Parameters, prev: nat, id: nat, t: real, prev': nat, id': nat, t': real, x: real)
    requires DistShaped(inst) && p.truckSpeed != 0.0
    requires prev <= |inst.customers| && 1 <= id <= |inst.customers|
    requires prev == prev' && id == id' && t == t' && x == Arrival(inst, p, prev, id, t)
    ensures x == Arrival(inst, p, prev', id', t')
  {
  }

  /** `calculate_truck_timeline`: empty for an empty route, otherwise the
      timeline from the depot at time 0. */
  function Timeline(inst: Instance, p: Parameters, route: seq<nat>): (tl: seq<Visit>)
    requires DistShaped(inst) && RouteInRange(inst, route)
    requires p.truckSpeed != 0.0
    ensures |tl| == |route|
    ensures forall i :: 0 <= i < |route| ==> tl[i].customer == route[i]
    ensures forall i :: 0 <= i < |route| ==> tl[i].departure == tl[i].arrival + p.serviceTime
  {
    if |route| == 0 then []
    else
      var tl := TimelineFrom(inst, p, 0, 0.0, route);
      assert forall i :: 0 <= i < |route| ==> tl[i].customer == route[i] && tl[i].departure == tl[i].arrival + p.serviceTime by {
        forall i | 0 <= i < |route| ensures tl[i].customer == route[i] && tl[i].departure == tl[i].arrival + p.serviceTime {
          TimelineEntryAt(inst, p, 0, 0.0, route, i);
        }
      }
      tl
  }

  /** With a positive speed each entry starts no earlier than the one before
      it ends, the first no earlier than the start time, and the truck never
      arrives at a D or DL customer before its ready time. */
  lemma TimelineBounds(inst: Instance, p: Parameters, prev: nat, t: real, route: seq<nat>)
    requires Valid(inst) && RouteInRange(inst, route) && prev <= |inst.customers|
    requires p.truckSpeed > 0.0
    ensures var tl := TimelineFrom(inst, p, prev, t, route);
            && (|route| > 0 ==> tl[0].arrival >= t)
            && (forall i :: 0 < i < |route| ==> tl[i].arrival >= tl[i - 1].departure)
            && (forall i :: 0 <= i < |route| && KindOf(inst, route[i]) in {D, DL} ==> tl[i].arrival >= inst.customers[route[i] - 1].readyTime)
  {
    var tl := TimelineFrom(inst, p, prev, t, route);
    if |route| > 0 {
      TimelineEntryAt(inst, p, prev, t, route, 0);
      ArrivalBounds(inst, p, prev, route[0], t);
    }
    forall i | 0 < i < |route| ensures tl[i].arrival >= tl[i - 1].departure {
      TimelineEntryAt(inst, p, prev, t, route, i);
      ArrivalBounds(inst, p, route[i - 1], route[i], tl[i - 1].departure);
    }
    forall i | 0 <= i < |route| && KindOf(inst, route[i]) in {D, DL}
      ensures tl[i].arrival >= inst.customers[route[i] - 1].readyTime
    {
      TimelineEntryAt(inst, p, prev, t, route, i);
      if i == 0 {
        ArrivalBounds(inst, p, prev, route[0], t);
      } else {
        ArrivalBounds(inst, p, route[i - 1], route[i], tl[i - 1].departure);
      }
    }
  }

  /** The loop of `calculate_truck_time`: the last node served and the time
      after its service. */
  function FinishFrom(inst: Instance, p: Parameters, prev: nat, t: real, route: seq<nat>): (r: (nat, real))
    requires DistShaped(inst) && RouteInRange(inst, route) && prev <= |inst.customers|
    requires p.truckSpeed != 0.0
    ensures r.0 <= |inst.customers|
    ensures |route| == 0 ==> r == (prev, t)
    ensures |route| > 0 ==> r.0 == route[|route| - 1]
    decreases |route|
  {
    if |route| == 0 then (prev, t)
    else
      var a := Arrival(inst, p, prev, route[0], t);
      FinishFrom(inst, p, route[0], a + p.serviceTime, route[1..])
  }

  /** The two loops agree: the time `calculate_truck_time` reaches after the
      last stop is that stop's departure in the timeline. */
  lemma {:induction false} FinishIsLastDeparture(inst: Instance, p: Parameters, prev: nat, t: real, route: seq<nat>)
    requires DistShaped(inst) && RouteInRange(inst, route) && prev <= |inst.customers|
    requires p.truckSpeed != 0.0
    requires |route| > 0
    ensures FinishFrom(inst, p, prev, t, route).1 == TimelineFrom(inst, p, prev, t, route)[|route| - 1].departure
    decreases |route|
  {
    var a := Arrival(inst, p, prev, route[0], t);
    assert FinishFrom(inst, p, prev, t, route) == FinishFrom(inst, p, route[0], a + p.serviceTime, route[1..]);
    TimelineStep(inst, p, prev, t, route, |route| - 1);
    if |route| == 1 {
      assert FinishFrom(inst, p, route[0], a + p.serviceTime, route[1..]) == (route[0], a + p.serviceTime);
    } else {
      FinishIsLastDeparture(inst, p, route[0], a + p.serviceTime, route[1..]);
    }
  }

  /** `calculate_truck_time`: 0 for an empty route; otherwise the time the
      truck is back at the depot after its last stop. No depot handoff time
      is added. */
  function TruckTime(inst: Instance, p: Parameters, route: seq<nat>): (r: real)
    requires DistShaped(inst) && RouteInRange(inst, route)
    requires p.truckSpeed != 0.0
    ensures |route| == 0 ==> r == 0.0
  {
    if |route| == 0 then 0.0
    else
      var f := FinishFrom(inst, p, 0, 0.0, route);
      f.1 + inst.dist[f.0][0] / p.truckSpeed
  }

  /** A non-empty route's completion time is its last departure in the
      timeline plus the drive from its last stop back to the depot. */
  lemma TruckTimeIsReturn(inst: Instance, p: Parameters, route: seq<nat>)
    requires DistShaped(inst) && RouteInRange(inst, route)
    requires p.truckSpeed != 0.0 && |route| > 0
    ensures TruckTime(inst, p, route) ==
              Timeline(inst, p, route)[|route| - 1].departure + inst.dist[route[|route| - 1]][0] / p.truckSpeed
  {
    FinishIsLastDeparture(inst, p, 0, 0.0, route);
  }

  /** Departures never decrease along the timeline when the speed is positive
      and the service time is not negative. */
  lemma {:induction false} DeparturesGrow(inst: Instance, p: Parameters, prev: nat, t: real, route: seq<nat>, i: nat, j: nat)
    requires Valid(inst) && RouteInRange(inst, route) && prev <= |inst.customers|
    requires p.truckSpeed > 0.0 && p.serviceTime >= 0.0
    requires i <= j < |route|
    ensures TimelineFrom(inst, p, prev, t, route)[i].departure <= TimelineFrom(inst, p, prev, t, route)[j].departure
    decreases j - i
  {
    if i < j {
      TimelineBounds(inst, p, prev, t, route);
      TimelineEntryAt(inst, p, prev, t, route, j);
      DeparturesGrow(inst, p, prev, t, route, i, j - 1);
    }
  }

  /** A truck cannot finish before any D or DL customer on its route is ready
      and served: its completion time is at least that ready time plus the
      service time. */
  lemma TruckTimeAfterReady(inst: Instance, p: Parameters, route: seq<nat>, k: nat)
    requires Valid(inst) && RouteInRange(inst, route)
    requires p.truckSpeed > 0.0 && p.serviceTime >= 0.0
    requires k < |route| && KindOf(inst, route[k]) in {D, DL}
    ensures TruckTime(inst, p, route) >= inst.customers[route[k] - 1].readyTime + p.serviceTime
  {
    var last := |route| - 1;
    var tl := TimelineFrom(inst, p, 0, 0.0, route);
    var back := inst.dist[route[last]][0] / p.truckSpeed;
    assert tl[k].arrival >= inst.customers[route[k] - 1].readyTime by {
      TimelineBounds(inst, p, 0, 0.0, route);
    }
    assert tl[k].departure == tl[k].arrival + p.serviceTime by {
      TimelineEntryAt(inst, p, 0, 0.0, route, k);
    }
    assert tl[k].departure <= tl[last].departure by {
      DeparturesGrow(inst, p, 0, 0.0, route, k, last);
    }
    assert back >= 0.0 by {
      DistanceMatrixMetric(inst.customers, route[last], 0, 0);
      QuotientNonNegative(inst.dist[route[last]][0], p.truckSpeed);
    }
    assert TruckTime(inst, p, route) == tl[last].departure + back by {
      TruckTimeIsReturn(inst, p, route);
      assert Timeline(inst, p, route) == tl;
    }
  }

  lemma QuotientNonNegative(a: real, b: real)
    requires a >= 0.0 && b > 0.0
    ensures a / b >= 0.0
  {
  }

  /** The D stops of `route` as (id, position) pairs, in route order. */
  function DeliveryStops(inst: Instance, route: seq<nat>): (r: seq<(nat, nat)>)
    requires RouteInRange(inst, route)
    ensures forall e :: e in r ==> e.1 < |route| && route[e.1] == e.0 && KindOf(inst, e.0) == D
    ensures forall k :: 0 <= k < |route| && KindOf(inst, route[k]) == D ==> (route[k], k) in r
    ensures forall a, b :: 0 <= a < b < |r| ==> r[a].1 < r[b].1
  {
    if |route| == 0 then []
    else
      var k := |route| - 1;
      var init := DeliveryStops(inst, route[..k]);
      assert forall e :: e in init ==> e.1 < k;
      if KindOf(inst, route[k]) == D then init + [(route[k], k)] else init
  }

  /** Consecutive blocks of `s`: `s[:m]`, then the same on `s[m:]`, until
      nothing is left. */
  function Batches<T>(s: seq<T>, m: int): (r: seq<seq<T>>)
    requires m >= 1
    ensures Flatten(r) == s
    ensures forall b :: 0 <= b < |r| ==> 1 <= |r[b]| <= m
    ensures forall b :: 0 <= b < |r| - 1 ==> |r[b]| == m
    decreases |s|
  {
    if |s| == 0 then []
    else if |s| <= m then
      assert Flatten([s]) == s + Flatten([s][1..]);
      [s]
    else
      var rest := Batches(s[m..], m);
      assert ([s[..m]] + rest)[1..] == rest;
      assert s[..m] + s[m..] == s;
      [s[..m]] + rest
  }

  /** The largest ready time of a trip's items. */
  function MaxReady(inst: Instance, items: seq<nat>): (r: real)
    requires RouteInRange(inst, items) && |items| > 0
    ensures forall k :: 0 <= k < |items| ==> r >= inst.customers[items[k] - 1].readyTime
    ensures exists k :: 0 <= k < |items| && r == inst.customers[items[k] - 1].readyTime
  {
    var here := inst.customers[items[0] - 1].readyTime;
    if |items| == 1 then here
    else
      var rest := MaxReady(inst, items[1..]);
      assert forall k :: 1 <= k < |items| ==> items[1..][k - 1] == items[k];
      Max(here, rest)
  }

  function Ids(block: seq<(nat, nat)>): (r: seq<nat>)
    ensures |r| == |block| && forall k :: 0 <= k < |block| ==> r[k] == block[k].0
  {
    seq(|block|, k requires 0 <= k < |block| => block[k].0)
  }

  /** A block a trip can be built from: non-empty, with customer ids in range
      and positions within a timeline of length `len`. */
  predicate BlockWithin(inst: Instance, len: nat, block: seq<(nat, nat)>)
  {
    |block| > 0 && forall e :: e in block ==> 1 <= e.0 <= |inst.customers| && e.1 < len
  }

  predicate BlocksWithin(inst: Instance, len: nat, blocks: seq<seq<(nat, nat)>>)
  {
    forall b :: 0 <= b < |blocks| ==> BlockWithin(inst, len, blocks[b])
  }

  /** The drone's flight time between the depot and `node`. */
  function DroneLeg(inst: Instance, p: Parameters, node: nat): real
    requires p.droneSpeed != 0.0 && node <= |inst.customers|
  {
    Euclid(inst, 0, node) / p.droneSpeed
  }

  /** The trip serving one block of D stops of truck `truck`, whose timeline
      is `tl`: it meets the truck at the block's first stop, leaving the depot
      when all its items are ready or just in time to meet the truck there,
      whichever is later. */
  function MakeTrip(inst: Instance, p: Parameters, truck: nat, tl: seq<Visit>, block: seq<(nat, nat)>): (trip: DroneTrip)
    requires p.droneSpeed != 0.0 && BlockWithin(inst, |tl|, block)
    ensures trip.items == Ids(block) && trip.meetTruck == truck && trip.meetNode == block[0].0
    ensures trip.returnTime == trip.departTime + trip.flightTime
  {
    var items := Ids(block);
    assert RouteInRange(inst, items) by {
      forall k | 0 <= k < |items| ensures 1 <= items[k] <= |inst.customers| {
        assert block[k] in block;
      }
    }
    var meet := block[0];
    assert meet in block;
    var travel := DroneLeg(inst, p, meet.0);
    var depart := Max(MaxReady(inst, items), tl[meet.1].arrival - travel - p.droneLoadTime);
    var flight := travel * 2.0 + p.droneLoadTime;
    DroneTrip(items, truck, meet.0, depart, depart + flight, flight)
  }

  /** The timing of the trip built for one block. */
  lemma MakeTripTiming(inst: Instance, p: Parameters, truck: nat, tl: seq<Visit>, block: seq<(nat, nat)>)
    requires p.droneSpeed != 0.0 && BlockWithin(inst, |tl|, block)
    ensures var trip := MakeTrip(inst, p, truck, tl, block);
            var travel := DroneLeg(inst, p, block[0].0);
            && block[0] in block
            && RouteInRange(inst, trip.items)
            && trip.flightTime == 2.0 * travel + p.droneLoadTime
            && trip.departTime == Max(MaxReady(inst, trip.items), tl[block[0].1].arrival - travel - p.droneLoadTime)
  {
    assert block[0] in block;
    var items := Ids(block);
    forall k | 0 <= k < |items| ensures 1 <= items[k] <= |inst.customers| {
      assert block[k] in block;
    }
  }

  /** The trips of `trips` whose flight time is within the drone endurance. */
  function WithinEndurance(trips: seq<DroneTrip>, endurance: real): (r: seq<DroneTrip>)
    ensures forall x :: x in r <==> x in trips && x.flightTime <= endurance
    ensures IsSubsequence(r, trips)
  {
    if |trips| == 0 then []
    else
      var rest := WithinEndurance(trips[1..], endurance);
      assert trips == [trips[0]] + trips[1..];
      if trips[0].flightTime <= endurance then
        var r := [trips[0]] + rest;
        assert r[1..] == rest;
        r
      else rest
  }

  function TripsOfBlocks(inst: Instance, p: Parameters, truck: nat, tl: seq<Visit>, blocks: seq<seq<(nat, nat)>>): (r: seq<DroneTrip>)
    requires p.droneSpeed != 0.0 && BlocksWithin(inst, |tl|, blocks)
    ensures |r| == |blocks|
    ensures forall b :: 0 <= b < |blocks| ==> r[b] == MakeTrip(inst, p, truck, tl, blocks[b])
  {
    seq(|blocks|, b requires 0 <= b < |blocks| => MakeTrip(inst, p, truck, tl, blocks[b]))
  }

  /** What the drones need for one truck: it has no D stop, or the drone
      capacity is at least one and the drone speed is not zero. Otherwise
      the source loops forever (capacity below one) or divides by zero. */
  predicate DroneReady(inst: Instance, p: Parameters, route: seq<nat>)
    requires RouteInRange(inst, route)
  {
    DeliveryStops(inst, route) == [] || (p.droneCapacity >= 1 && p.droneSpeed != 0.0)
  }

  /** The blocks of D stops of a route are within its timeline. */
  lemma DeliveryBlocksWithin(inst: Instance, route: seq<nat>, m: int)
    requires RouteInRange(inst, route) && m >= 1
    ensures BlocksWithin(inst, |route|, Batches(DeliveryStops(inst, route), m))
  {
    var stops := DeliveryStops(inst, route);
    var blocks := Batches(stops, m);
    forall b | 0 <= b < |blocks| ensures BlockWithin(inst, |route|, blocks[b]) {
      forall e | e in blocks[b] ensures e in stops {
        FlattenMember(blocks, e);
      }
    }
  }

  /** The trips scheduled for truck `truck`: its D stops in blocks of at most
      `droneCapacity`, one trip per block, kept when within endurance. */
  function TruckTrips(inst: Instance, p: Parameters, truck: nat, route: seq<nat>): (r: seq<DroneTrip>)
    requires Valid(inst) && RouteInRange(inst, route) && p.truckSpeed != 0.0
    requires DroneReady(inst, p, route)
  {
    var stops := DeliveryStops(inst, route);
    if stops == [] then []
    else
      var tl := Timeline(inst, p, route);
      var blocks := Batches(stops, p.droneCapacity);
      DeliveryBlocksWithin(inst, route, p.droneCapacity);
      WithinEndurance(TripsOfBlocks(inst, p, truck, tl, blocks), p.droneEndurance)
  }

  predicate AllDroneReady(inst: Instance, p: Parameters, routes: seq<seq<nat>>)
    requires RoutesInRange(inst, routes)
  {
    forall t :: 0 <= t < |routes| ==> DroneReady(inst, p, routes[t])
  }

  /** The trips of trucks `t`, `t + 1`, ... in truck order. */
  function TripsFrom(inst: Instance, p: Parameters, routes: seq<seq<nat>>, t: nat): (r: seq<DroneTrip>)
    requires Valid(inst) && RoutesInRange(inst, routes) && p.truckSpeed != 0.0
    requires AllDroneReady(inst, p, routes)
    decreases |routes| - t
  {
    if t >= |routes| then [] else TruckTrips(inst, p, t, routes[t]) + TripsFrom(inst, p, routes, t + 1)
  }

  /** `schedule_drones`: the same routes and makespan with the drone trips
      rebuilt; no trips at all without drones. */
  function ScheduleDrones(inst: Instance, p: Parameters, s: Solution): (r: Solution)
    requires Valid(inst) && RoutesInRange(inst, s.routes) && p.truckSpeed != 0.0
    requires p.numDrones <= 0 || AllDroneReady(inst, p, s.routes)
    ensures r.routes == s.routes && r.makespan == s.makespan
    ensures p.numDrones <= 0 ==> r.droneTrips == []
  {
    s.(droneTrips := if p.numDrones <= 0 then [] else TripsFrom(inst, p, s.routes, 0))
  }

  /** The items of a scheduled trip: between one and `droneCapacity` D stops
      of the truck it meets, met at the first of them. */
  predicate TripItemsOk(inst: Instance, p: Parameters, routes: seq<seq<nat>>, trip: DroneTrip)
  {
    && trip.meetTruck < |routes|
    && 1 <= |trip.items| <= p.droneCapacity
    && RouteInRange(inst, trip.items)
    && (forall k :: 0 <= k < |trip.items| ==> trip.items[k] in routes[trip.meetTruck] && KindOf(inst, trip.items[k]) == D)
    && trip.meetNode == trip.items[0]
  }

  /** The timing of a scheduled trip: the drone flies from the depot to the
      meeting stop and back at `droneSpeed`, plus the loading time; it leaves
      when every item is ready or just in time to meet the truck at that stop,
      whichever is later; and the flight is within the endurance. */
  predicate TripTimingOk(inst: Instance, p: Parameters, routes: seq<seq<nat>>, trip: DroneTrip)
    requires Valid(inst) && RoutesInRange(inst, routes) && p.truckSpeed != 0.0 && p.droneSpeed != 0.0
    requires TripItemsOk(inst, p, routes, trip)
  {
    && trip.flightTime <= p.droneEndurance
    && trip.returnTime == trip.departTime + trip.flightTime
    && trip.flightTime == 2.0 * DroneLeg(inst, p, trip.meetNode) + p.droneLoadTime
    && exists pos :: 0 <= pos < |routes[trip.meetTruck]| &&
         MeetsTruckAt(inst, p, routes[trip.meetTruck], Timeline(inst, p, routes[trip.meetTruck]), trip, pos)
  }

  /** Stop `pos` of the truck the trip meets, whose timeline is `tl`, is its
      meeting node, and the drone leaves when every item is ready or just in
      time to meet the truck there, whichever is later. */
  predicate MeetsTruckAt(inst: Instance, p: Parameters, route: seq<nat>, tl: seq<Visit>, trip: DroneTrip, pos: nat)
    requires p.droneSpeed != 0.0 && RouteInRange(inst, trip.items) && |trip.items| > 0
    requires trip.meetNode <= |inst.customers|
  {
    && pos < |route| && pos < |tl| && route[pos] == trip.meetNode
    && trip.departTime == Max(MaxReady(inst, trip.items), tl[pos].arrival - DroneLeg(inst, p, trip.meetNode) - p.droneLoadTime)
  }

  predicate TripWellFormed(inst: Instance, p: Parameters, routes: seq<seq<nat>>, trip: DroneTrip)
    requires Valid(inst) && RoutesInRange(inst, routes) && p.truckSpeed != 0.0 && p.droneSpeed != 0.0
  {
    TripItemsOk(inst, p, routes, trip) && TripTimingOk(inst, p, routes, trip)
  }

  /** The items of a block are D stops of the route, at the positions the block records. */
  lemma BlockItemsAreDeliveries(inst: Instance, route: seq<nat>, blocks: seq<seq<(nat, nat)>>, b: nat)
    requires RouteInRange(inst, route)
    requires Flatten(blocks) == DeliveryStops(inst, route) && b < |blocks|
    ensures forall k :: 0 <= k < |blocks[b]| ==>
              && blocks[b][k].1 < |route| && route[blocks[b][k].1] == blocks[b][k].0
              && blocks[b][k].0 in route && KindOf(inst, blocks[b][k].0) == D
  {
    forall k | 0 <= k < |blocks[b]|
      ensures blocks[b][k].1 < |route| && route[blocks[b][k].1] == blocks[b][k].0
      ensures blocks[b][k].0 in route && KindOf(inst, blocks[b][k].0) == D
    {
      var e := blocks[b][k];
      assert e in blocks[b];
      FlattenMember(blocks, e);
      assert e in DeliveryStops(inst, route);
    }
  }

  /** A trip built from a block of D stops that fits the drone and whose
      flight is within the endurance is well formed. */
  lemma MakeTripWellFormed(inst: Instance, p: Parameters, routes: seq<seq<nat>>, t: nat, block: seq<(nat, nat)>)
    requires Valid(inst) && RoutesInRange(inst, routes) && p.truckSpeed != 0.0 && p.droneSpeed != 0.0
    requires t < |routes| && |block| <= p.droneCapacity && BlockWithin(inst, |routes[t]|, block)
    requires routes[t][block[0].1] == block[0].0
    requires forall k :: 0 <= k < |block| ==> block[k].0 in routes[t] && KindOf(inst, block[k].0) == D
    requires MakeTrip(inst, p, t, Timeline(inst, p, routes[t]), block).flightTime <= p.droneEndurance
    ensures TripWellFormed(inst, p, routes, MakeTrip(inst, p, t, Timeline(inst, p, routes[t]), block))
  {
    MakeTripItemsOk(inst, p, routes, t, block);
    MakeTripTimingOk(inst, p, routes, t, block);
  }

  lemma MakeTripItemsOk(inst: Instance, p: Parameters, routes: seq<seq<nat>>, t: nat, block: seq<(nat, nat)>)
    requires Valid(inst) && RoutesInRange(inst, routes) && p.truckSpeed != 0.0 && p.droneSpeed != 0.0
    requires t < |routes| && |block| <= p.droneCapacity && BlockWithin(inst, |routes[t]|, block)
    requires forall k :: 0 <= k < |block| ==> block[k].0 in routes[t] && KindOf(inst, block[k].0) == D
    ensures TripItemsOk(inst, p, routes, MakeTrip(inst, p, t, Timeline(inst, p, routes[t]), block))
  {
    var tl := Timeline(inst, p, routes[t]);
    MakeTripTiming(inst, p, t, tl, block);
  }

  lemma MakeTripTimingOk(inst: Instance, p: Parameters, routes: seq<seq<nat>>, t: nat, block: seq<(nat, nat)>)
    requires Valid(inst) && RoutesInRange(inst, routes) && p.truckSpeed != 0.0 && p.droneSpeed != 0.0
    requires t < |routes| && BlockWithin(inst, |routes[t]|, block)
    requires routes[t][block[0].1] == block[0].0
    requires TripItemsOk(inst, p, routes, MakeTrip(inst, p, t, Timeline(inst, p, routes[t]), block))
    requires MakeTrip(inst, p, t, Timeline(inst, p, routes[t]), block).flightTime <= p.droneEndurance
    ensures TripTimingOk(inst, p, routes, MakeTrip(inst, p, t, Timeline(inst, p, routes[t]), block))
  {
    var tl := Timeline(inst, p, routes[t]);
    MakeTripMeets(inst, p, t, routes[t], tl, block);
  }

  /** The trip built for a block meets the truck at the block's first stop. */
  lemma MakeTripMeets(inst: Instance, p: Parameters, truck: nat, route: seq<nat>, tl: seq<Visit>, block: seq<(nat, nat)>)
    requires p.droneSpeed != 0.0 && BlockWithin(inst, |tl|, block)
    requires |tl| == |route| && route[block[0].1] == block[0].0
    ensures var trip := MakeTrip(inst, p, truck, tl, block);
            && RouteInRange(inst, trip.items) && |trip.items| > 0 && trip.meetNode <= |inst.customers|
            && trip.flightTime == 2.0 * DroneLeg(inst, p, trip.meetNode) + p.droneLoadTime
            && MeetsTruckAt(inst, p, route, tl, trip, block[0].1)
  {
    MakeTripTiming(inst, p, truck, tl, block);
  }

  lemma TruckTripsWellFormed(inst: Instance, p: Parameters, routes: seq<seq<nat>>, t: nat, trip: DroneTrip)
    requires Valid(inst) && RoutesInRange(inst, routes) && p.truckSpeed != 0.0 && p.droneSpeed != 0.0
    requires t < |routes| && p.droneCapacity >= 1
    requires trip in TruckTrips(inst, p, t, routes[t])
    ensures TripWellFormed(inst, p, routes, trip)
  {
    var route := routes[t];
    var stops := DeliveryStops(inst, route);
    var tl := Timeline(inst, p, route);
    var blocks := Batches(stops, p.droneCapacity);
    DeliveryBlocksWithin(inst, route, p.droneCapacity);
    var all := TripsOfBlocks(inst, p, t, tl, blocks);
    assert trip in all && trip.flightTime <= p.droneEndurance;
    var b :| 0 <= b < |all| && all[b] == trip;
    BlockItemsAreDeliveries(inst, route, blocks, b);
    assert BlockWithin(inst, |route|, blocks[b]);
    MakeTripWellFormed(inst, p, routes, t, blocks[b]);
  }

  /** Every scheduled trip is well formed, and trips exist only with drones. */
  lemma ScheduleDronesWellFormed(inst: Instance, p: Parameters, s: Solution, trip: DroneTrip)
    requires Valid(inst) && RoutesInRange(inst, s.routes) && p.truckSpeed != 0.0
    requires p.numDrones <= 0 || AllDroneReady(inst, p, s.routes)
    requires trip in ScheduleDrones(inst, p, s).droneTrips
    ensures p.numDrones > 0
    ensures p.droneSpeed != 0.0 && TripWellFormed(inst, p, s.routes, trip)
  {
    TripsFromWellFormed(inst, p, s.routes, 0, trip);
  }

  lemma {:induction false} TripsFromWellFormed(inst: Instance, p: Parameters, routes: seq<seq<nat>>, t: nat, trip: DroneTrip)
    requires Valid(inst) && RoutesInRange(inst, routes) && p.truckSpeed != 0.0
    requires AllDroneReady(inst, p, routes)
    requires trip in TripsFrom(inst, p, routes, t)
    ensures p.droneSpeed != 0.0 && TripWellFormed(inst, p, routes, trip)
    decreases |routes| - t
  {
    if t < |routes| {
      if trip in TruckTrips(inst, p, t, routes[t]) {
        assert DeliveryStops(inst, routes[t]) != [];
        TruckTripsWellFormed(inst, p, routes, t, trip);
      } else {
        TripsFromWellFormed(inst, p, routes, t + 1, trip);
      }
    }
  }

  function ItemsOf(trips: seq<DroneTrip>): (r: seq<seq<nat>>)
    ensures |r| == |trips| && forall k :: 0 <= k < |trips| ==> r[k] == trips[k].items
  {
    seq(|trips|, k requires 0 <= k < |trips| => trips[k].items)
  }

  /** Before the endurance filter, the trips of a truck carry exactly its D
      stops, in route order: the blocks are consecutive. */
  lemma TruckItemsCoverDeliveries(inst: Instance, p: Parameters, truck: nat, route: seq<nat>)
    requires Valid(inst) && RouteInRange(inst, route) && p.truckSpeed != 0.0
    requires p.droneCapacity >= 1 && p.droneSpeed != 0.0
    ensures var stops := DeliveryStops(inst, route);
            var blocks := Batches(stops, p.droneCapacity);
            BlocksWithin(inst, |route|, blocks) &&
            Flatten(ItemsOf(TripsOfBlocks(inst, p, truck, Timeline(inst, p, route), blocks))) == Ids(stops)
  {
    var stops := DeliveryStops(inst, route);
    var blocks := Batches(stops, p.droneCapacity);
    DeliveryBlocksWithin(inst, route, p.droneCapacity);
    TripsItems(inst, p, truck, Timeline(inst, p, route), blocks);
    FlattenIds(blocks);
  }

  /** Trip `b` carries the ids of block `b`. */
  lemma TripsItems(inst: Instance, p: Parameters, truck: nat, tl: seq<Visit>, blocks: seq<seq<(nat, nat)>>)
    requires p.droneSpeed != 0.0 && BlocksWithin(inst, |tl|, blocks)
    ensures ItemsOf(TripsOfBlocks(inst, p, truck, tl, blocks)) == seq(|blocks|, b requires 0 <= b < |blocks| => Ids(blocks[b]))
  {
    var trips := TripsOfBlocks(inst, p, truck, tl, blocks);
    var ids := seq(|blocks|, b requires 0 <= b < |blocks| => Ids(blocks[b]));
    forall b | 0 <= b < |blocks| ensures ItemsOf(trips)[b] == ids[b] {
      assert trips[b] == MakeTrip(inst, p, truck, tl, blocks[b]);
    }
  }

  lemma {:induction false} FlattenIds(blocks: seq<seq<(nat, nat)>>)
    ensures Flatten(seq(|blocks|, b requires 0 <= b < |blocks| => Ids(blocks[b]))) == Ids(Flatten(blocks))
  {
    if |blocks| > 0 {
      var ids := seq(|blocks|, b requires 0 <= b < |blocks| => Ids(blocks[b]));
      FlattenIds(blocks[1..]);
      assert ids[1..] == seq(|blocks[1..]|, b requires 0 <= b < |blocks[1..]| => Ids(blocks[1..][b]));
      IdsConcat(blocks[0], Flatten(blocks[1..]));
    }
  }

  lemma IdsConcat(a: seq<(nat, nat)>, b: seq<(nat, nat)>)
    ensures Ids(a + b) == Ids(a) + Ids(b)
  {
  }

  /** The larger of `base` and every element of `xs`. */
  function MaxOf(base: real, xs: seq<real>): (r: real)
    ensures r >= base && forall k :: 0 <= k < |xs| ==> r >= xs[k]
    ensures r == base || exists k :: 0 <= k < |xs| && r == xs[k]
    decreases |xs|
  {
    if |xs| == 0 then base
    else
      var r := MaxOf(Max(base, xs[0]), xs[1..]);
      assert forall k :: 1 <= k < |xs| ==> xs[1..][k - 1] == xs[k];
      r
  }

  function TruckTimes(inst: Instance, p: Parameters, routes: seq<seq<nat>>): (r: seq<real>)
    requires Valid(inst) && RoutesInRange(inst, routes) && p.truckSpeed != 0.0
    ensures |r| == |routes| && forall t :: 0 <= t < |routes| ==> r[t] == TruckTime(inst, p, routes[t])
  {
    seq(|routes|, t requires 0 <= t < |routes| => TruckTime(inst, p, routes[t]))
  }

  function ReturnTimes(trips: seq<DroneTrip>): (r: seq<real>)
    ensures |r| == |trips| && forall k :: 0 <= k < |trips| ==> r[k] == trips[k].returnTime
  {
    seq(|trips|, k requires 0 <= k < |trips| => trips[k].returnTime)
  }

  /** The makespan of a scheduled solution: the largest of 0, the truck
      completion times and the drone return times. */
  function MakespanOf(inst: Instance, p: Parameters, routes: seq<seq<nat>>, trips: seq<DroneTrip>): (m: real)
    requires Valid(inst) && RoutesInRange(inst, routes) && p.truckSpeed != 0.0
    ensures m >= 0.0
    ensures forall t :: 0 <= t < |routes| ==> m >= TruckTime(inst, p, routes[t])
    ensures forall k :: 0 <= k < |trips| ==> m >= trips[k].returnTime
    ensures || m == 0.0
            || (exists t :: 0 <= t < |routes| && m == TruckTime(inst, p, routes[t]))
            || (exists k :: 0 <= k < |trips| && m == trips[k].returnTime)
  {
    var ts := TruckTimes(inst, p, routes);
    var rs := ReturnTimes(trips);
    MaxOfSplit(0.0, ts, rs);
    MaxOf(0.0, ts + rs)
  }

  /** The maximum over two sequences laid end to end bounds both and is
      the base or an element of one of them. */
  lemma MaxOfSplit(base: real, a: seq<real>, b: seq<real>)
    ensures var m := MaxOf(base, a + b);
            && (forall i :: 0 <= i < |a| ==> m >= a[i])
            && (forall i :: 0 <= i < |b| ==> m >= b[i])
            && (m == base || (exists i :: 0 <= i < |a| && m == a[i]) || (exists i :: 0 <= i < |b| && m == b[i]))
  {
    var s := a + b;
    var m := MaxOf(base, s);
    assert forall i :: 0 <= i < |a| ==> s[i] == a[i];
    assert forall i :: 0 <= i < |b| ==> s[|a| + i] == b[i];
    if m != base {
      var i :| 0 <= i < |s| && m == s[i];
      if i >= |a| {
        assert m == b[i - |a|];
      } else {
        assert m == a[i];
      }
    }
  }

  /** What `evaluate_solution` needs beyond a valid instance: ids in range, a
      truck speed and, when there are drones, usable drone parameters. */
  predicate Evaluable(inst: Instance, p: Parameters, s: Solution)
  {
    && Valid(inst) && RoutesInRange(inst, s.routes) && p.truckSpeed != 0.0
    && (p.numDrones <= 0 || AllDroneReady(inst, p, s.routes))
  }

  /** `evaluate_solution`: the makespan it returns, and the solution after
      the call. An infeasible solution scores infinity and is left alone; a
      feasible one gets its scheduled drone trips and scores their makespan. */
  function EvaluateSolution(inst: Instance, p: Parameters, s: Solution): (r: (Makespan, Solution))
    requires Evaluable(inst, p, s)
    ensures r.1.routes == s.routes && r.1.makespan == s.makespan
    ensures !IsFeasible(inst, p, s) ==> r == (Infinite, s)
    ensures IsFeasible(inst, p, s) ==>
              && r.1.droneTrips == ScheduleDrones(inst, p, s).droneTrips
              && r.0 == Finite(MakespanOf(inst, p, s.routes, r.1.droneTrips))
  {
    if !IsFeasible(inst, p, s) then (Infinite, s)
    else
      var trips := ScheduleDrones(inst, p, s).droneTrips;
      (Finite(MakespanOf(inst, p, s.routes, trips)), s.(droneTrips := trips))
  }

  /** A second evaluation of the evaluated solution gives the same makespan
      and leaves it as it is. */
  lemma EvaluateIdempotent(inst: Instance, p: Parameters, s: Solution)
    requires Evaluable(inst, p, s)
    ensures Evaluable(inst, p, EvaluateSolution(inst, p, s).1)
    ensures EvaluateSolution(inst, p, EvaluateSolution(inst, p, s).1) == EvaluateSolution(inst, p, s)
  {
    var s1 := EvaluateSolution(inst, p, s).1;
    assert s1.routes == s.routes;
    assert IsFeasible(inst, p, s1) == IsFeasible(inst, p, s);
  }

  /** A feasible solution's makespan (the value `evaluate_solution` returns
      through `MakespanOf`, whatever the drone trips) is at least the time
      any D or DL customer is ready plus the service time. */
  lemma MakespanOfAfterReady(inst: Instance, p: Parameters, routes: seq<seq<nat>>, trips: seq<DroneTrip>, t: nat, k: nat)
    requires Valid(inst) && RoutesInRange(inst, routes)
    requires p.truckSpeed > 0.0 && p.serviceTime >= 0.0
    requires t < |routes| && k < |routes[t]| && KindOf(inst, routes[t][k]) in {D, DL}
    ensures MakespanOf(inst, p, routes, trips) >= inst.customers[routes[t][k] - 1].readyTime + p.serviceTime
  {
    var x := inst.customers[routes[t][k] - 1].readyTime + p.serviceTime;
    TruckTimeAfterReady(inst, p, routes[t], k);
    MakespanAtLeast(inst, p, routes, trips, t, x);
  }

  lemma MakespanAtLeast(inst: Instance, p: Parameters, routes: seq<seq<nat>>, trips: seq<DroneTrip>, t: nat, x: real)
    requires Valid(inst) && RoutesInRange(inst, routes) && p.truckSpeed != 0.0
    requires t < |routes| && TruckTime(inst, p, routes[t]) >= x
    ensures MakespanOf(inst, p, routes, trips) >= x
  {
  }

  /** `new_sol.makespan = evaluate_solution(new_sol)` on new routes. */
  function Finish(inst: Instance, p: Parameters, s: Solution, routes: seq<seq<nat>>): (r: Solution)
    requires Valid(inst) && RoutesInRange(inst, routes) && p.truckSpeed != 0.0
    requires p.numDrones <= 0 || (p.droneCapacity >= 1 && p.droneSpeed != 0.0)
    ensures r.routes == routes
    ensures var e := EvaluateSolution(inst, p, s.(routes := routes)); r == e.1.(makespan := e.0)
  {
    var s1 := s.(routes := routes);
    assert Evaluable(inst, p, s1);
    var e := EvaluateSolution(inst, p, s1);
    e.1.(makespan := e.0)
  }
}
