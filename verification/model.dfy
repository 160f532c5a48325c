/** Static problem data of the truck-and-drone scheduler: customers of the
    D/P/DL taxonomy, fleet parameters, the Manhattan distance matrix used for
    truck travel, the pickup-to-dropoff pairing and the Euclidean distance
    used for drone flight. */
module Model {
  import opened Options

  /** Customer types: D is a delivery restocked by drone, P a pickup and DL
      the dropoff of a pickup. Every other type string (the depot's 'DEPOT'
      among them) is Other. */
  datatype Kind = D | P | DL | Other

  /** One parsed line of an instance file; `readyMinutes` is in minutes. */
  datatype Record = Record(id: int, x: real, y: real, kind: Kind, readyMinutes: real, pairId: int)

  /** A customer; `readyTime` is in hours and `weight` is the load it adds or removes. */
  datatype Customer = Customer(id: int, x: real, y: real, kind: Kind, readyTime: real, pairId: int, weight: int)

  /** The customer record built from one parsed line: the ready time is
      converted from minutes to hours and every customer weighs one unit. */
  function NewCustomer(r: Record): (c: Customer)
    ensures c.readyTime * 60.0 == r.readyMinutes
    ensures c.weight == 1
    ensures c.id == r.id && c.x == r.x && c.y == r.y && c.kind == r.kind && c.pairId == r.pairId
  {
    Customer(r.id, r.x, r.y, r.kind, r.readyMinutes / 60.0, r.pairId, 1)
  }

  /** The depot: node 0, at (10, 10). */
  const Depot: Customer := NewCustomer(Record(0, 10.0, 10.0, Other, 0.0, 0))

  /** Fleet and search parameters. The adaptive operator weights and scores
      are not part of this model. */
  datatype Parameters = Parameters(
    truckCapacity: int,      // M_T
    truckSpeed: real,
    serviceTime: real,       // delta, per stop, hours
    depotHandoff: real,      // delta_t (not read by the scheduling core)
    droneCapacity: int,      // M_D, items per drone trip
    droneSpeed: real,
    droneEndurance: real,    // L_d, hours
    droneLoadTime: real,     // delta_prime, hours
    droneDeltaD: real,       // delta_d (not read by the scheduling core)
    numTrucks: int,
    numDrones: int,
    maxIterations: int,
    destroyRate: real,
    tempStart: real,
    coolingRate: real)

  /** The parameter values the program is configured with. */
  const Defaults: Parameters := Parameters(
    50, 30.0, 3.0 / 60.0, 5.0 / 60.0,
    2, 60.0, 90.0 / 60.0, 5.0 / 60.0, 5.0 / 60.0,
    2, 2,
    2000, 0.25, 100.0, 0.9975)

  /** Static instance data. `sqrt` is the square root used for drone
      distances, left uninterpreted. */
  datatype Instance = Instance(
    customers: seq<Customer>,
    dist: seq<seq<real>>,
    pdPairs: seq<(int, int)>,
    sqrt: real -> real)

  /** Customer ids are exactly 1..n in file order, so `customers[id - 1]` and
      row `id` of the distance matrix both describe customer `id`. */
  predicate WellIndexed(cs: seq<Customer>)
  {
    forall k :: 0 <= k < |cs| ==> cs[k].id == k + 1
  }

  predicate UnitWeights(cs: seq<Customer>)
  {
    forall k :: 0 <= k < |cs| ==> cs[k].weight == 1
  }

  /** An instance as the constructor builds it from well-indexed records. */
  predicate Valid(inst: Instance)
  {
    && WellIndexed(inst.customers)
    && UnitWeights(inst.customers)
    && inst.dist == Distances(inst.customers)
    && inst.pdPairs == PdPairs(inst.customers)
  }

  /** The distance matrix has a row and a column for the depot and every customer. */
  predicate DistShaped(inst: Instance)
  {
    && |inst.dist| == |inst.customers| + 1
    && forall i :: 0 <= i < |inst.dist| ==> |inst.dist[i]| == |inst.customers| + 1
  }

  function Abs(v: real): real
  {
    if v < 0.0 then -v else v
  }

  function Max(a: real, b: real): real
  {
    if a < b then b else a
  }

  /** Node list of the distance matrix: the depot, then the customers in file order. */
  function Nodes(cs: seq<Customer>): seq<Customer>
  {
    [Depot] + cs
  }

  function Manhattan(a: Customer, b: Customer): real
  {
    Abs(b.x - a.x) + Abs(b.y - a.y)
  }

  /** The (n+1) x (n+1) Manhattan distance matrix over depot and customers. */
  function Distances(cs: seq<Customer>): (m: seq<seq<real>>)
    ensures |m| == |cs| + 1
    ensures forall i :: 0 <= i < |m| ==> |m[i]| == |cs| + 1
    ensures forall i, j :: 0 <= i < |m| && 0 <= j < |m| ==> m[i][j] == Manhattan(Nodes(cs)[i], Nodes(cs)[j])
  {
    var nodes := Nodes(cs);
    seq(|nodes|, i requires 0 <= i < |nodes| =>
      seq(|nodes|, j requires 0 <= j < |nodes| => Manhattan(nodes[i], nodes[j])))
  }

  /** Row 0 is the depot at (10, 10) and row k is the k-th customer of the
      file; the matrix is a metric: non-negative, zero on the diagonal,
      symmetric, and it satisfies the triangle inequality. */
  lemma DistanceMatrixMetric(cs: seq<Customer>, i: nat, j: nat, k: nat)
    requires i <= |cs| && j <= |cs| && k <= |cs|
    ensures Nodes(cs)[0].x == 10.0 && Nodes(cs)[0].y == 10.0
    ensures 0 < i ==> Nodes(cs)[i] == cs[i - 1]
    ensures Distances(cs)[i][j] >= 0.0
    ensures Distances(cs)[i][i] == 0.0
    ensures Distances(cs)[i][j] == Distances(cs)[j][i]
    ensures Distances(cs)[i][k] <= Distances(cs)[i][j] + Distances(cs)[j][k]
  {
  }

  /** `dl_dict[pid]`: the id of the LAST DL customer with pairing id `pid`,
      since later entries of the dictionary comprehension overwrite earlier ones. */
  function LastDropoff(cs: seq<Customer>, pid: int): (r: Option<int>)
    ensures r.None? <==> forall k :: 0 <= k < |cs| ==> !(cs[k].kind == DL && cs[k].pairId == pid)
    ensures r.Some? ==> exists k :: 0 <= k < |cs| && cs[k].kind == DL && cs[k].pairId == pid && cs[k].id == r.value
                           && forall m :: k < m < |cs| ==> !(cs[m].kind == DL && cs[m].pairId == pid)
  {
    if |cs| == 0 then None
    else
      var last := cs[|cs| - 1];
      var init := cs[..|cs| - 1];
      assert forall k :: 0 <= k < |init| ==> init[k] == cs[k];
      if last.kind == DL && last.pairId == pid then Some(last.id)
      else LastDropoff(init, pid)
  }

  /** The pd_pairs entries produced while scanning `rest` (a suffix of `cs`):
      one (pickup id, dropoff id) per P customer whose pairing id some DL shares. */
  function PairsFrom(cs: seq<Customer>, rest: seq<Customer>): (r: seq<(int, int)>)
    ensures forall e :: e in r <==> exists k :: 0 <= k < |rest| && rest[k].kind == P && rest[k].id == e.0
                                             && LastDropoff(cs, rest[k].pairId) == Some(e.1)
  {
    if |rest| == 0 then []
    else
      var c := rest[0];
      var tail := PairsFrom(cs, rest[1..]);
      assert forall k :: 1 <= k < |rest| ==> rest[1..][k - 1] == rest[k];
      var dl := LastDropoff(cs, c.pairId);
      if c.kind == P && dl.Some? then [(c.id, dl.value)] + tail else tail
  }

  /** `build_pd_pairs`, as its entries in dictionary insertion order (the
      order of the P customers in the file). With distinct customer ids the
      keys are distinct and this is exactly the dictionary. */
  function PdPairs(cs: seq<Customer>): seq<(int, int)>
  {
    PairsFrom(cs, cs)
  }

  /** The dropoff index of `dl_dict` under well-indexed ids: `v` is the last
      DL with pairing id `pid`. */
  predicate IsLastDropoff(cs: seq<Customer>, pid: int, v: int)
  {
    && 1 <= v <= |cs| && cs[v - 1].kind == DL && cs[v - 1].pairId == pid
    && forall m :: v <= m < |cs| ==> !(cs[m].kind == DL && cs[m].pairId == pid)
  }

  lemma LastDropoffWellIndexed(cs: seq<Customer>, pid: int, v: int)
    requires WellIndexed(cs)
    ensures LastDropoff(cs, pid) == Some(v) <==> IsLastDropoff(cs, pid, v)
  {
    var r := LastDropoff(cs, pid);
    if r.Some? {
      var m :| 0 <= m < |cs| && cs[m].kind == DL && cs[m].pairId == pid && cs[m].id == r.value
               && forall m' :: m < m' < |cs| ==> !(cs[m'].kind == DL && cs[m'].pairId == pid);
      assert IsLastDropoff(cs, pid, m + 1);
    }
  }

  /** What the pairing map records: an entry k -> v exactly when k is a P
      customer and v is the last DL customer with the same pairing id. */
  lemma PdPairsMeaning(cs: seq<Customer>, k: nat, v: int)
    requires WellIndexed(cs)
    requires 1 <= k <= |cs|
    ensures (k, v) in PdPairs(cs) <==> cs[k - 1].kind == P && IsLastDropoff(cs, cs[k - 1].pairId, v)
  {
    if (k, v) in PdPairs(cs) {
      PdPairsEntry(cs, k, v);
    }
    if cs[k - 1].kind == P && IsLastDropoff(cs, cs[k - 1].pairId, v) {
      LastDropoffWellIndexed(cs, cs[k - 1].pairId, v);
      assert cs[k - 1].id == k;
    }
  }

  lemma PdPairsEntry(cs: seq<Customer>, k: nat, v: int)
    requires WellIndexed(cs)
    requires 1 <= k <= |cs| && (k, v) in PdPairs(cs)
    ensures cs[k - 1].kind == P && IsLastDropoff(cs, cs[k - 1].pairId, v)
  {
    assert cs[k - 1].kind == P && LastDropoff(cs, cs[k - 1].pairId) == Some(v) by {
      var j :| 0 <= j < |cs| && cs[j].kind == P && cs[j].id == k && LastDropoff(cs, cs[j].pairId) == Some(v);
      assert cs[j].id == j + 1;
      assert cs[j] == cs[k - 1];
    }
    LastDropoffWellIndexed(cs, cs[k - 1].pairId, v);
  }

  /** A P customer gets a pairing entry exactly when some DL shares its pairing id. */
  lemma PdPairsCoverPickups(cs: seq<Customer>, k: nat)
    requires WellIndexed(cs)
    requires 1 <= k <= |cs| && cs[k - 1].kind == P
    ensures (exists e :: e in PdPairs(cs) && e.0 == k) <==>
            exists m :: 0 <= m < |cs| && cs[m].kind == DL && cs[m].pairId == cs[k - 1].pairId
  {
    var last := LastDropoff(cs, cs[k - 1].pairId);
    if last.Some? {
      assert cs[k - 1].id == k;
      assert (k, last.value) in PdPairs(cs);
    } else {
      forall e | e in PdPairs(cs) ensures e.0 != k {
        var j :| 0 <= j < |cs| && cs[j].kind == P && cs[j].id == e.0 && LastDropoff(cs, cs[j].pairId) == Some(e.1);
        assert cs[j].id == j + 1;
      }
    }
  }

  /** Distinct customer ids give distinct pairing keys. */
  lemma PdPairsKeysDistinct(cs: seq<Customer>, e1: (int, int), e2: (int, int))
    requires WellIndexed(cs)
    requires e1 in PdPairs(cs) && e2 in PdPairs(cs) && e1.0 == e2.0
    ensures e1.1 == e2.1
  {
    var j1 :| 0 <= j1 < |cs| && cs[j1].kind == P && cs[j1].id == e1.0 && LastDropoff(cs, cs[j1].pairId) == Some(e1.1);
    var j2 :| 0 <= j2 < |cs| && cs[j2].kind == P && cs[j2].id == e2.0 && LastDropoff(cs, cs[j2].pairId) == Some(e2.1);
    assert j1 == j2;
  }

  /** `pd_pairs.get(p)`: the dropoff recorded for pickup `p`, if any. */
  function DropoffOf(pairs: seq<(int, int)>, p: int): (r: Option<int>)
    ensures r.Some? ==> (p, r.value) in pairs
    ensures r.None? <==> forall e :: e in pairs ==> e.0 != p
  {
    if |pairs| == 0 then None
    else if pairs[0].0 == p then Some(pairs[0].1)
    else DropoffOf(pairs[1..], p)
  }

  /** The reverse lookup of repair.py and initial_solution.py: the first
      pickup, in pd_pairs order, whose dropoff is `dl`. */
  function PickupOf(pairs: seq<(int, int)>, dl: int): (r: Option<int>)
    ensures r.Some? ==> (r.value, dl) in pairs
    ensures r.None? <==> forall e :: e in pairs ==> e.1 != dl
  {
    if |pairs| == 0 then None
    else if pairs[0].1 == dl then Some(pairs[0].0)
    else PickupOf(pairs[1..], dl)
  }

  /** Every pairing entry names two customers of the instance: a P and a DL
      with a common pairing id. */
  lemma PairEntryInRange(inst: Instance, e: (int, int))
    requires Valid(inst)
    requires e in inst.pdPairs
    ensures 1 <= e.0 <= |inst.customers| && 1 <= e.1 <= |inst.customers|
    ensures inst.customers[e.0 - 1].kind == P && inst.customers[e.1 - 1].kind == DL
    ensures inst.customers[e.0 - 1].pairId == inst.customers[e.1 - 1].pairId
  {
    var cs := inst.customers;
    var j :| 0 <= j < |cs| && cs[j].kind == P && cs[j].id == e.0 && LastDropoff(cs, cs[j].pairId) == Some(e.1);
    assert e == (j + 1, e.1);
    PdPairsEntry(cs, j + 1, e.1);
  }

  /** A pickup recorded in the pairing map has exactly the dropoff that the
      reverse lookup finds it from. */
  lemma PickupOfInverse(inst: Instance, dl: int)
    requires Valid(inst)
    requires PickupOf(inst.pdPairs, dl).Some?
    ensures DropoffOf(inst.pdPairs, PickupOf(inst.pdPairs, dl).value) == Some(dl)
  {
    var pk := PickupOf(inst.pdPairs, dl).value;
    var r := DropoffOf(inst.pdPairs, pk);
    assert r.Some?;
    PdPairsKeysDistinct(inst.customers, (pk, r.value), (pk, dl));
  }

  /** Arrival time at `id` after leaving `prev` at time `t`: the truck
      travels at `truckSpeed` and waits for the ready time of D and DL
      customers. */
  function Arrival(inst: Instance, p: Parameters, prev: nat, id: nat, t: real): real
    requires DistShaped(inst)
    requires prev <= |inst.customers| && 1 <= id <= |inst.customers|
    requires p.truckSpeed != 0.0
  {
    var c := inst.customers[id - 1];
    var reached := t + inst.dist[prev][id] / p.truckSpeed;
    if c.kind == D || c.kind == DL then Max(reached, c.readyTime) else reached
  }

  /** With a positive speed the truck never arrives before it leaves, nor
      before a D or DL customer is ready. */
  lemma ArrivalBounds(inst: Instance, p: Parameters, prev: nat, id: nat, t: real)
    requires Valid(inst)
    requires prev <= |inst.customers| && 1 <= id <= |inst.customers|
    requires p.truckSpeed > 0.0
    ensures Arrival(inst, p, prev, id, t) >= t
    ensures inst.customers[id - 1].kind in {D, DL} ==> Arrival(inst, p, prev, id, t) >= inst.customers[id - 1].readyTime
  {
    DistanceMatrixMetric(inst.customers, prev, id, id);
    assert inst.dist[prev][id] / p.truckSpeed >= 0.0;
  }

  function Square(v: real): real
  {
    v * v
  }

  /** `euclidean_distance(i, j)` without its cache: the arguments are put in
      ascending order first. */
  function Euclid(inst: Instance, i: nat, j: nat): real
    requires i <= |inst.customers| && j <= |inst.customers|
  {
    var nodes := Nodes(inst.customers);
    var a := if i > j then j else i;
    var b := if i > j then i else j;
    var dx := nodes[a].x - nodes[b].x;
    var dy := nodes[a].y - nodes[b].y;
    inst.sqrt(Square(dx) + Square(dy))
  }

  /** A distance cache is faithful when every entry is keyed by an ordered
      pair of nodes and holds that pair's distance. */
  predicate CacheFaithful(inst: Instance, cache: map<(nat, nat), real>)
  {
    forall key :: key in cache ==> key.0 <= key.1 <= |inst.customers| && cache[key] == Euclid(inst, key.0, key.1)
  }

  /** `euclidean_distance` with its cache: the value returned and the cache afterwards. */
  function CachedEuclid(inst: Instance, cache: map<(nat, nat), real>, i: nat, j: nat): (r: (real, map<(nat, nat), real>))
    requires i <= |inst.customers| && j <= |inst.customers|
    requires CacheFaithful(inst, cache)
    ensures r.0 == Euclid(inst, i, j) && r.0 == Euclid(inst, j, i)
    ensures CacheFaithful(inst, r.1)
    ensures r.1.Keys == cache.Keys + {if i > j then (j, i) else (i, j)}
  {
    var key := if i > j then (j, i) else (i, j);
    if key in cache then (cache[key], cache)
    else
      var d := Euclid(inst, key.0, key.1);
      (d, cache[key := d])
  }

  /** A repeated call, in either argument order, hits the cache: same value,
      cache unchanged. */
  lemma CachedEuclidRepeat(inst: Instance, cache: map<(nat, nat), real>, i: nat, j: nat)
    requires i <= |inst.customers| && j <= |inst.customers|
    requires CacheFaithful(inst, cache)
    ensures CachedEuclid(inst, CachedEuclid(inst, cache, i, j).1, i, j) == CachedEuclid(inst, cache, i, j)
    ensures CachedEuclid(inst, CachedEuclid(inst, cache, i, j).1, j, i) == CachedEuclid(inst, cache, i, j)
  {
  }

  /** `Instance.__init__` from already-parsed lines: customers, distance matrix and pairing map. */
  function BuildInstance(rows: seq<Record>, sqrt: real -> real): (inst: Instance)
    ensures |inst.customers| == |rows|
    ensures forall k :: 0 <= k < |rows| ==> inst.customers[k] == NewCustomer(rows[k])
    ensures (forall k :: 0 <= k < |rows| ==> rows[k].id == k + 1) ==> Valid(inst)
  {
    var cs := seq(|rows|, k requires 0 <= k < |rows| => NewCustomer(rows[k]));
    Instance(cs, Distances(cs), PdPairs(cs), sqrt)
  }
}
