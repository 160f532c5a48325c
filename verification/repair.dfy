/** The repair operators of repair.py. The removed ids are first grouped into
    units (a lone customer, or a pickup with its dropoff); each unit is then
    put back into a truck route at one of a sample of positions, chosen by
    cheapest truck time (greedy) or by largest regret. */
module Repair {
  import opened Options
  import opened Seqs
  import opened Sorting
  import opened Model
  import opened Solutions
  import opened Evaluate

  // ---------------------------------------------------------------------
  // Units
  // ---------------------------------------------------------------------

  /** One entry of `to_insert`: a one-element list, or a pickup and its
      dropoff that are inserted together. */
  datatype Unit = Single(id: nat) | Pair(pickup: nat, dropoff: nat)

  function UnitIds(u: Unit): (r: seq<nat>)
    ensures |r| == (if u.Single? then 1 else 2)
  {
    match u
    case Single(id) => [id]
    case Pair(pk, d) => [pk, d]
  }

  /** The ids of a list of units, unit by unit. */
  function AllIds(units: seq<Unit>): seq<nat>
  {
    if |units| == 0 then [] else UnitIds(units[0]) + AllIds(units[1..])
  }

  lemma AllIdsCons(u: Unit, rest: seq<Unit>)
    ensures AllIds([u] + rest) == UnitIds(u) + AllIds(rest)
  {
    assert ([u] + rest)[1..] == rest;
  }

  predicate UnitInRange(inst: Instance, u: Unit)
  {
    RouteInRange(inst, UnitIds(u))
  }

  predicate UnitsInRange(inst: Instance, units: seq<Unit>)
  {
    forall k :: 0 <= k < |units| ==> UnitInRange(inst, units[k])
  }

  /** Every pair joins a pickup with its dropoff in the pairing map. */
  predicate UnitsLinked(inst: Instance, units: seq<Unit>)
  {
    forall k :: 0 <= k < |units| && units[k].Pair? ==> (units[k].pickup, units[k].dropoff) in inst.pdPairs
  }

  // ---------------------------------------------------------------------
  // Grouping
  // ---------------------------------------------------------------------

  /** One pass of the grouping loop shared by both operators, at
      `removed[i]`, with `inserted` the ids already placed in a pair: the
      units it appends (none or one) and the new `inserted`. A pickup whose
      dropoff was removed too becomes a pair with it (whether or not that
      dropoff is already in a pair); a dropoff whose pickup was removed and
      is not yet paired becomes a pair; other pickups and deliveries stay
      alone. A dropoff whose pickup was not removed stays alone only in the
      greedy variant (`keepLoneDropoff`); the regret variant drops it, as it
      drops ids of any other kind. The truthiness tests of the source
      coincide with presence here, because removed ids are at least 1. */
  function GroupStep(inst: Instance, removed: seq<nat>, i: nat, inserted: set<nat>, keepLoneDropoff: bool): (r: (seq<Unit>, set<nat>))
    requires RouteInRange(inst, removed) && i < |removed|
    ensures |r.0| <= 1 && UnitsInRange(inst, r.0) && UnitsLinked(inst, r.0)
  {
    var c := removed[i];
    if c in inserted then ([], inserted)
    else
      var kind := KindOf(inst, c);
      if kind == D then ([Single(c)], inserted)
      else if kind == P then
        var dl := DropoffOf(inst.pdPairs, c);
        if dl.Some? && dl.value in removed then
          var d: nat := dl.value;
          ([Pair(c, d)], inserted + {c, d})
        else ([Single(c)], inserted)
      else if kind == DL then
        var pk := PickupOf(inst.pdPairs, c);
        if pk.Some? && pk.value in removed && pk.value !in inserted then
          var q: nat := pk.value;
          ([Pair(q, c)], inserted + {q, c})
        else if keepLoneDropoff && !(pk.Some? && pk.value in removed) then ([Single(c)], inserted)
        else ([], inserted)
      else ([], inserted)
  }

  /** The grouping loop over `removed[i..]`. */
  function GroupFrom(inst: Instance, removed: seq<nat>, i: nat, inserted: set<nat>, keepLoneDropoff: bool): (r: seq<Unit>)
    requires RouteInRange(inst, removed) && i <= |removed|
    ensures UnitsInRange(inst, r) && UnitsLinked(inst, r)
    decreases |removed| - i
  {
    if i == |removed| then []
    else
      var (emitted, inserted') := GroupStep(inst, removed, i, inserted, keepLoneDropoff);
      emitted + GroupFrom(inst, removed, i + 1, inserted', keepLoneDropoff)
  }

  /** `to_insert` of greedy_insertion (`keepLoneDropoff`) or regret_insertion. */
  function Group(inst: Instance, removed: seq<nat>, keepLoneDropoff: bool): (r: seq<Unit>)
    requires RouteInRange(inst, removed)
    ensures UnitsInRange(inst, r) && UnitsLinked(inst, r)
  {
    GroupFrom(inst, removed, 0, {}, keepLoneDropoff)
  }

  /** What the grouping needs to know about the pairing map: every entry
      joins a P and a DL of the instance, no pickup has two entries, and no
      dropoff has two entries. The last holds when no two pickups share a
      pairing id with one dropoff; the instance file format does not rule
      that out. */
  predicate PairsWellFormed(inst: Instance)
  {
    && (forall e :: e in inst.pdPairs ==>
          && 1 <= e.0 <= |inst.customers| && 1 <= e.1 <= |inst.customers|
          && inst.customers[e.0 - 1].kind == P && inst.customers[e.1 - 1].kind == DL)
    && (forall e1, e2 :: e1 in inst.pdPairs && e2 in inst.pdPairs && e1.0 == e2.0 ==> e1.1 == e2.1)
    && (forall e1, e2 :: e1 in inst.pdPairs && e2 in inst.pdPairs && e1.1 == e2.1 ==> e1.0 == e2.0)
  }

  /** A valid instance whose dropoffs each belong to one pickup has a
      well-formed pairing map. */
  lemma ValidPairsWellFormed(inst: Instance)
    requires Valid(inst)
    requires forall e1, e2 :: e1 in inst.pdPairs && e2 in inst.pdPairs && e1.1 == e2.1 ==> e1.0 == e2.0
    ensures PairsWellFormed(inst)
  {
    forall e | e in inst.pdPairs
      ensures 1 <= e.0 <= |inst.customers| && 1 <= e.1 <= |inst.customers|
      ensures inst.customers[e.0 - 1].kind == P && inst.customers[e.1 - 1].kind == DL
    {
      PairEntryInRange(inst, e);
    }
    forall e1, e2 | e1 in inst.pdPairs && e2 in inst.pdPairs && e1.0 == e2.0 ensures e1.1 == e2.1 {
      PdPairsKeysDistinct(inst.customers, e1, e2);
    }
  }

  /** A dropoff is lone when its pickup was not removed with it. */
  predicate LoneDropoff(inst: Instance, removed: seq<nat>, x: nat)
    requires 1 <= x <= |inst.customers|
  {
    && KindOf(inst, x) == DL
    && var pk := PickupOf(inst.pdPairs, x); pk.None? || pk.value !in removed
  }

  /** The removed ids that end up in some unit. */
  predicate Kept(inst: Instance, removed: seq<nat>, x: nat, keepLoneDropoff: bool)
    requires 1 <= x <= |inst.customers|
  {
    KindOf(inst, x) != Other && (keepLoneDropoff || !LoneDropoff(inst, removed, x))
  }

  /** A pickup whose dropoff was removed too. */
  predicate PartneredPickup(inst: Instance, removed: seq<nat>, x: nat)
    requires 1 <= x <= |inst.customers|
  {
    && KindOf(inst, x) == P
    && var dl := DropoffOf(inst.pdPairs, x); dl.Some? && dl.value in removed
  }

  /** The state of the grouping loop before `removed[i]`: `done` holds the
      ids of the units so far, which are the kept ids of `removed[..i]` and
      the paired ids; every paired id has its partner paired; every P or DL
      of `removed[..i]` whose partner was removed is paired. */
  ghost predicate GroupState(inst: Instance, removed: seq<nat>, i: nat, inserted: set<nat>, keepLoneDropoff: bool, done: set<nat>)
    requires RouteInRange(inst, removed) && i <= |removed|
  {
    && (forall x :: x in inserted ==> x in removed)
    && (forall x :: x in done <==> x in inserted || (x in removed[..i] && Kept(inst, removed, x, keepLoneDropoff)))
    && (forall x {:trigger DropoffOf(inst.pdPairs, x)} :: x in inserted && KindOf(inst, x) == P ==>
          DropoffOf(inst.pdPairs, x).Some? && DropoffOf(inst.pdPairs, x).value in inserted)
    && (forall x {:trigger PickupOf(inst.pdPairs, x)} :: x in inserted && KindOf(inst, x) == DL ==>
          PickupOf(inst.pdPairs, x).Some? && PickupOf(inst.pdPairs, x).value in inserted)
    && (forall x :: x in inserted ==> KindOf(inst, x) in {P, DL})
    && (forall x :: x in removed[..i] && PartneredPickup(inst, removed, x) ==> x in inserted)
    && (forall x :: x in removed[..i] && KindOf(inst, x) == DL && !LoneDropoff(inst, removed, x) ==> x in inserted)
  }

  /** The dropoff recorded for a pickup leads back to that pickup. */
  lemma DropoffPartner(inst: Instance, x: int)
    requires PairsWellFormed(inst) && DropoffOf(inst.pdPairs, x).Some?
    ensures var d := DropoffOf(inst.pdPairs, x).value;
            && 1 <= x <= |inst.customers| && 1 <= d <= |inst.customers|
            && inst.customers[x - 1].kind == P && inst.customers[d - 1].kind == DL
            && PickupOf(inst.pdPairs, d) == Some(x)
  {
    var d := DropoffOf(inst.pdPairs, x).value;
    assert (x, d) in inst.pdPairs;
    var w := PickupOf(inst.pdPairs, d);
    assert w.Some?;
    assert (w.value, d) in inst.pdPairs;
  }

  /** The pickup found for a dropoff has that dropoff recorded. */
  lemma PickupPartner(inst: Instance, x: int)
    requires PairsWellFormed(inst) && PickupOf(inst.pdPairs, x).Some?
    ensures var q := PickupOf(inst.pdPairs, x).value;
            && 1 <= x <= |inst.customers| && 1 <= q <= |inst.customers|
            && inst.customers[x - 1].kind == DL && inst.customers[q - 1].kind == P
            && DropoffOf(inst.pdPairs, q) == Some(x)
  {
    var q := PickupOf(inst.pdPairs, x).value;
    assert (q, x) in inst.pdPairs;
    var v := DropoffOf(inst.pdPairs, q);
    assert v.Some?;
    assert (q, v.value) in inst.pdPairs;
  }

  lemma {:induction false} AllIdsConcat(a: seq<Unit>, b: seq<Unit>)
    ensures AllIds(a + b) == AllIds(a) + AllIds(b)
  {
    if |a| > 0 {
      assert (a + b)[0] == a[0] && (a + b)[1..] == a[1..] + b;
      AllIdsConcat(a[1..], b);
      assert AllIds(a + b) == UnitIds(a[0]) + AllIds(a[1..] + b);
    } else {
      assert a + b == b;
    }
  }

  /** The grouping state survives a pass that skips an already paired id. */
  lemma StepSkip(inst: Instance, removed: seq<nat>, i: nat, inserted: set<nat>, keep: bool, done: set<nat>)
    requires RouteInRange(inst, removed) && i < |removed|
    requires GroupState(inst, removed, i, inserted, keep, done)
    requires removed[i] in inserted
    ensures GroupState(inst, removed, i + 1, inserted, keep, done)
  {
    assert removed[..i + 1] == removed[..i] + [removed[i]];
  }

  /** ... and a pass that drops an id no unit keeps. */
  lemma StepDrop(inst: Instance, removed: seq<nat>, i: nat, inserted: set<nat>, keep: bool, done: set<nat>)
    requires RouteInRange(inst, removed) && i < |removed|
    requires GroupState(inst, removed, i, inserted, keep, done)
    requires !Kept(inst, removed, removed[i], keep)
    ensures GroupState(inst, removed, i + 1, inserted, keep, done)
  {
    assert removed[..i + 1] == removed[..i] + [removed[i]];
  }

  /** ... and a pass that emits a lone unit for an id without a removed partner. */
  lemma StepSingle(inst: Instance, removed: seq<nat>, i: nat, inserted: set<nat>, keep: bool, done: set<nat>)
    requires RouteInRange(inst, removed) && i < |removed| && removed[i] !in removed[..i]
    requires GroupState(inst, removed, i, inserted, keep, done)
    requires var c := removed[i];
             && c !in inserted && Kept(inst, removed, c, keep) && !PartneredPickup(inst, removed, c)
             && (KindOf(inst, c) == DL ==> LoneDropoff(inst, removed, c))
    ensures removed[i] !in done
    ensures GroupState(inst, removed, i + 1, inserted, keep, done + {removed[i]})
  {
    assert removed[..i + 1] == removed[..i] + [removed[i]];
  }

  /** ... and a pass that emits the pair `(a, b)` for one of its ids. */
  lemma StepPair(inst: Instance, removed: seq<nat>, i: nat, inserted: set<nat>, keep: bool, done: set<nat>, a: nat, b: nat)
    requires RouteInRange(inst, removed) && i < |removed|
    requires GroupState(inst, removed, i, inserted, keep, done)
    requires removed[i] in {a, b} && a in removed && b in removed
    requires KindOf(inst, a) == P && KindOf(inst, b) == DL
    requires DropoffOf(inst.pdPairs, a) == Some(b) && PickupOf(inst.pdPairs, b) == Some(a)
    ensures GroupState(inst, removed, i + 1, inserted + {a, b}, keep, done + {a, b})
  {
    assert removed[..i + 1] == removed[..i] + [removed[i]];
  }

  /** The pass at a pickup whose dropoff was removed too emits a pair of ids
      not yet in a unit. */
  lemma StepPickupPair(inst: Instance, removed: seq<nat>, i: nat, inserted: set<nat>, keep: bool, done: set<nat>)
    requires PairsWellFormed(inst) && RouteInRange(inst, removed) && i < |removed| && removed[i] !in removed[..i]
    requires GroupState(inst, removed, i, inserted, keep, done)
    requires removed[i] !in inserted && PartneredPickup(inst, removed, removed[i])
    ensures var c := removed[i]; var d := DropoffOf(inst.pdPairs, c).value;
            && c !in done && d !in done && d != c
            && GroupState(inst, removed, i + 1, inserted + {c, d}, keep, done + {c, d})
  {
    var c := removed[i];
    var d := DropoffOf(inst.pdPairs, c).value;
    DropoffPartner(inst, c);
    assert !LoneDropoff(inst, removed, d);
    StepPair(inst, removed, i, inserted, keep, done, c, d);
  }

  /** The pass at a dropoff whose pickup was removed and is not yet paired
      emits a pair of ids not yet in a unit. */
  lemma StepDropoffPair(inst: Instance, removed: seq<nat>, i: nat, inserted: set<nat>, keep: bool, done: set<nat>)
    requires PairsWellFormed(inst) && RouteInRange(inst, removed) && i < |removed| && removed[i] !in removed[..i]
    requires GroupState(inst, removed, i, inserted, keep, done)
    requires var c := removed[i]; var pk := PickupOf(inst.pdPairs, c);
             c !in inserted && pk.Some? && pk.value in removed && pk.value !in inserted
    ensures var c := removed[i]; var q := PickupOf(inst.pdPairs, c).value;
            && c !in done && q !in done && q != c
            && GroupState(inst, removed, i + 1, inserted + {q, c}, keep, done + {q, c})
  {
    var c := removed[i];
    var q := PickupOf(inst.pdPairs, c).value;
    PickupPartner(inst, c);
    assert PartneredPickup(inst, removed, q);
    assert q !in removed[..i];
    assert KindOf(inst, q) != KindOf(inst, c);
    StepPair(inst, removed, i, inserted, keep, done, q, c);
  }

  /** A dropoff whose pickup was removed is paired by the time its own
      pass comes if its pickup already is. */
  lemma PairedDropoffPaired(inst: Instance, removed: seq<nat>, i: nat, inserted: set<nat>, keep: bool, done: set<nat>)
    requires PairsWellFormed(inst) && RouteInRange(inst, removed) && i < |removed|
    requires GroupState(inst, removed, i, inserted, keep, done)
    requires var c := removed[i]; var pk := PickupOf(inst.pdPairs, c);
             pk.Some? && pk.value in inserted
    ensures removed[i] in inserted
  {
    var c := removed[i];
    PickupPartner(inst, c);
    var q := PickupOf(inst.pdPairs, c).value;
    assert DropoffOf(inst.pdPairs, q) == Some(c);
  }

  /** One pass of the grouping loop keeps its state: the ids it adds are
      new and distinct, and the state holds one position further on. */
  lemma GroupStepPreserves(inst: Instance, removed: seq<nat>, i: nat, inserted: set<nat>, keep: bool, done: set<nat>)
    requires PairsWellFormed(inst) && RouteInRange(inst, removed) && NoDuplicates(removed) && i < |removed|
    requires GroupState(inst, removed, i, inserted, keep, done)
    ensures var r := GroupStep(inst, removed, i, inserted, keep);
            var ids := AllIds(r.0);
            && NoDuplicates(ids) && (forall x :: x in ids ==> x !in done)
            && GroupState(inst, removed, i + 1, r.1, keep, done + set x | x in ids)
  {
    var c := removed[i];
    assert c !in removed[..i];
    var r := GroupStep(inst, removed, i, inserted, keep);
    if c in inserted {
      assert r == ([], inserted);
      NoIds(done);
      StepSkip(inst, removed, i, inserted, keep, done);
    } else if KindOf(inst, c) == D {
      assert r == ([Single(c)], inserted);
      SingleIds(c, done);
      StepSingle(inst, removed, i, inserted, keep, done);
    } else if PartneredPickup(inst, removed, c) {
      var d := DropoffOf(inst.pdPairs, c).value;
      assert r == ([Pair(c, d)], inserted + {c, d});
      StepPickupPair(inst, removed, i, inserted, keep, done);
      PairIds(c, d, done);
    } else if KindOf(inst, c) == P {
      assert r == ([Single(c)], inserted);
      SingleIds(c, done);
      StepSingle(inst, removed, i, inserted, keep, done);
    } else if KindOf(inst, c) == DL {
      var pk := PickupOf(inst.pdPairs, c);
      if pk.Some? && pk.value in removed && pk.value !in inserted {
        var q := pk.value;
        assert r == ([Pair(q, c)], inserted + {q, c});
        StepDropoffPair(inst, removed, i, inserted, keep, done);
        PairIds(q, c, done);
      } else if pk.Some? && pk.value in removed {
        PairedDropoffPaired(inst, removed, i, inserted, keep, done);
        assert false;
      } else if keep {
        assert r == ([Single(c)], inserted);
        SingleIds(c, done);
        StepSingle(inst, removed, i, inserted, keep, done);
      } else {
        assert r == ([], inserted);
        NoIds(done);
        StepDrop(inst, removed, i, inserted, keep, done);
      }
    } else {
      assert r == ([], inserted);
      NoIds(done);
      StepDrop(inst, removed, i, inserted, keep, done);
    }
  }

  lemma SingleIds(c: nat, done: set<nat>)
    ensures AllIds([Single(c)]) == [c] && (done + set x | x in AllIds([Single(c)])) == done + {c}
    ensures NoDuplicates(AllIds([Single(c)]))
  {
    AllIdsCons(Single(c), []);
  }

  lemma PairIds(a: nat, b: nat, done: set<nat>)
    requires a != b
    ensures AllIds([Pair(a, b)]) == [a, b] && (done + set x | x in AllIds([Pair(a, b)])) == done + {a, b}
    ensures NoDuplicates(AllIds([Pair(a, b)]))
  {
    AllIdsCons(Pair(a, b), []);
  }

  lemma NoIds(done: set<nat>)
    ensures AllIds([]) == [] && (done + set x | x in AllIds([])) == done
  {
  }

  /** The grouping loop from any reachable state: the ids of the units it
      still emits are distinct and new, and together with those already
      emitted they are exactly the kept ids of `removed`. */
  lemma {:induction false} GroupFromPartition(inst: Instance, removed: seq<nat>, i: nat, inserted: set<nat>, keep: bool, done: set<nat>)
    requires PairsWellFormed(inst) && RouteInRange(inst, removed) && NoDuplicates(removed) && i <= |removed|
    requires GroupState(inst, removed, i, inserted, keep, done)
    ensures var ids := AllIds(GroupFrom(inst, removed, i, inserted, keep));
            && NoDuplicates(ids)
            && (forall x :: x in ids ==> x !in done)
            && (forall x :: x in ids || x in done <==> x in removed && Kept(inst, removed, x, keep))
    decreases |removed| - i
  {
    if i == |removed| {
      GroupDoneAtEnd(inst, removed, inserted, keep, done);
    } else {
      var r := GroupStep(inst, removed, i, inserted, keep);
      GroupStepPreserves(inst, removed, i, inserted, keep, done);
      var head := AllIds(r.0);
      var done' := done + set x | x in head;
      var rest := GroupFrom(inst, removed, i + 1, r.1, keep);
      GroupFromPartition(inst, removed, i + 1, r.1, keep, done');
      assert GroupFrom(inst, removed, i, inserted, keep) == r.0 + rest;
      AllIdsConcat(r.0, rest);
      NoDuplicatesConcat(head, AllIds(rest));
      var ids := head + AllIds(rest);
      forall x | x in ids ensures x !in done {
        if x !in head {
          assert x in AllIds(rest);
        }
      }
      forall x ensures x in ids || x in done <==> x in removed && Kept(inst, removed, x, keep) {
        assert x in done' <==> x in done || x in head;
      }
    }
  }

  /** Once the loop has passed every removed id, the emitted ids are
      exactly the kept ones. */
  lemma GroupDoneAtEnd(inst: Instance, removed: seq<nat>, inserted: set<nat>, keep: bool, done: set<nat>)
    requires PairsWellFormed(inst) && RouteInRange(inst, removed)
    requires GroupState(inst, removed, |removed|, inserted, keep, done)
    ensures forall x :: x in done <==> x in removed && Kept(inst, removed, x, keep)
  {
    assert removed[..|removed|] == removed;
    forall x | x in inserted ensures Kept(inst, removed, x, keep) {
      if KindOf(inst, x) == DL {
        assert PickupOf(inst.pdPairs, x).value in removed;
      }
    }
  }

  /** The units of either operator: their ids are distinct, and they are
      the removed ids of kind D, P or DL, less the lone dropoffs when
      `keepLoneDropoff` is off. */
  lemma GroupPartition(inst: Instance, removed: seq<nat>, keepLoneDropoff: bool)
    requires PairsWellFormed(inst) && RouteInRange(inst, removed) && NoDuplicates(removed)
    ensures var ids := AllIds(Group(inst, removed, keepLoneDropoff));
            && NoDuplicates(ids)
            && forall x :: x in ids <==> x in removed && Kept(inst, removed, x, keepLoneDropoff)
  {
    GroupFromPartition(inst, removed, 0, {}, keepLoneDropoff, {});
  }

  /** Greedy repair groups every removed customer exactly once. */
  lemma GreedyGroupsAllRemoved(inst: Instance, removed: seq<nat>)
    requires PairsWellFormed(inst) && RouteInRange(inst, removed) && NoDuplicates(removed)
    requires forall k :: 0 <= k < |removed| ==> KindOf(inst, removed[k]) != Other
    ensures multiset(AllIds(Group(inst, removed, true))) == multiset(removed)
  {
    var ids := AllIds(Group(inst, removed, true));
    GroupPartition(inst, removed, true);
    DistinctSameElements(ids, removed);
  }

  /** One pass of the loop, for a dropoff `x` that no pairing entry names as
      dropoff or as pickup: the pass emits `x` only as a lone unit of the
      greedy variant, when it reaches `x` itself, and never records `x` as
      paired. */
  lemma LoneDropoffStep(inst: Instance, removed: seq<nat>, i: nat, inserted: set<nat>, keep: bool, x: nat)
    requires RouteInRange(inst, removed) && i < |removed|
    requires 1 <= x <= |inst.customers| && KindOf(inst, x) == DL
    requires PickupOf(inst.pdPairs, x).None? && DropoffOf(inst.pdPairs, x).None?
    ensures var r := GroupStep(inst, removed, i, inserted, keep);
            && (x in AllIds(r.0) <==> keep && removed[i] == x && x !in inserted)
            && (x in r.1 <==> x in inserted)
  {
    var r := GroupStep(inst, removed, i, inserted, keep);
    if |r.0| == 1 {
      assert AllIds(r.0) == UnitIds(r.0[0]) + AllIds(r.0[1..]);
      assert AllIds(r.0[1..]) == [];
    } else {
      assert r.0 == [];
    }
  }

  /** The rest of the loop from `removed[i]` on, with `x` not yet paired:
      `x` is emitted iff the variant keeps lone dropoffs and `x` is still
      ahead. */
  lemma {:induction false} LoneDropoffFrom(inst: Instance, removed: seq<nat>, i: nat, inserted: set<nat>, keep: bool, x: nat)
    requires RouteInRange(inst, removed) && i <= |removed|
    requires 1 <= x <= |inst.customers| && KindOf(inst, x) == DL
    requires PickupOf(inst.pdPairs, x).None? && DropoffOf(inst.pdPairs, x).None?
    requires x !in inserted
    ensures x in AllIds(GroupFrom(inst, removed, i, inserted, keep)) <==> keep && x in removed[i..]
    decreases |removed| - i
  {
    if i < |removed| {
      var (emitted, inserted') := GroupStep(inst, removed, i, inserted, keep);
      LoneDropoffStep(inst, removed, i, inserted, keep, x);
      LoneDropoffFrom(inst, removed, i + 1, inserted', keep, x);
      AllIdsConcat(emitted, GroupFrom(inst, removed, i + 1, inserted', keep));
      assert removed[i..] == [removed[i]] + removed[i + 1..];
    }
  }

  /** Regret repair leaves out a removed dropoff whose pickup has no pairing
      entry for it, wherever it sits in the removed list; greedy repair keeps
      it. */
  lemma RegretDropsLoneDropoff(inst: Instance, removed: seq<nat>, x: nat)
    requires RouteInRange(inst, removed) && x in removed
    requires 1 <= x <= |inst.customers| && KindOf(inst, x) == DL
    requires PickupOf(inst.pdPairs, x).None? && DropoffOf(inst.pdPairs, x).None?
    ensures x !in AllIds(Group(inst, removed, false))
    ensures x in AllIds(Group(inst, removed, true))
  {
    assert removed[0..] == removed;
    LoneDropoffFrom(inst, removed, 0, {}, false, x);
    LoneDropoffFrom(inst, removed, 0, {}, true, x);
  }

  /** In an instance built from a file, a dropoff is never a key of the
      pairing map, since every key there is a pickup. */
  lemma DropoffHasNoDropoff(inst: Instance, x: nat)
    requires Valid(inst)
    requires 1 <= x <= |inst.customers| && KindOf(inst, x) == DL
    ensures DropoffOf(inst.pdPairs, x).None?
  {
    forall e | e in inst.pdPairs ensures e.0 != x {
      PairEntryInRange(inst, e);
    }
  }

  /** On the one-element list `[x]`, such a dropoff makes the regret units
      empty and the greedy units a lone `x`. */
  lemma LoneDropoffAlone(inst: Instance, x: nat)
    requires 1 <= x <= |inst.customers| && KindOf(inst, x) == DL
    requires PickupOf(inst.pdPairs, x).None?
    ensures Group(inst, [x], false) == []
    ensures Group(inst, [x], true) == [Single(x)]
  {
    assert RouteInRange(inst, [x]);
    assert GroupStep(inst, [x], 0, {}, false) == ([], {});
    assert GroupStep(inst, [x], 0, {}, true) == ([Single(x)], {});
    assert GroupFrom(inst, [x], 1, {}, false) == [] && GroupFrom(inst, [x], 1, {}, true) == [];
    assert GroupFrom(inst, [x], 0, {}, false) == [] + GroupFrom(inst, [x], 1, {}, false);
    assert GroupFrom(inst, [x], 0, {}, true) == [Single(x)] + GroupFrom(inst, [x], 1, {}, true);
  }

  // ---------------------------------------------------------------------
  // Sampled positions
  // ---------------------------------------------------------------------

  /** Python's `range(start, stop, step)` for a positive step. */
  function Range(start: nat, stop: nat, step: nat): (r: seq<nat>)
    requires step >= 1
    decreases if start < stop then stop - start else 0
  {
    if start >= stop then [] else [start] + Range(start + step, stop, step)
  }

  /** A range starts at `start`, climbs by `step`, stays below `stop`, and
      stops only when the next value would reach `stop`. */
  lemma {:induction false} RangeMeaning(start: nat, stop: nat, step: nat)
    requires step >= 1
    ensures var r := Range(start, stop, step);
            && (|r| == 0 <==> start >= stop)
            && (|r| > 0 ==> r[0] == start && r[|r| - 1] + step >= stop)
            && (forall k :: 0 <= k < |r| ==> start <= r[k] < stop)
            && (forall k :: 0 <= k < |r| - 1 ==> r[k + 1] == r[k] + step)
    decreases if start < stop then stop - start else 0
  {
    if start < stop {
      var rest := Range(start + step, stop, step);
      RangeMeaning(start + step, stop, step);
      assert Range(start, stop, step) == [start] + rest;
    }
  }

  /** Python's slice `s[:n]`. */
  function Take<T>(s: seq<T>, n: nat): (r: seq<T>)
    ensures |r| == Min(|s|, n) && r == s[..|r|]
  {
    if |s| <= n then s else s[..n]
  }

  /** Insertion points sampled for a lone customer in a route of length
      `len`: both ends, and when `len > 2` every `step`-th position with
      `step = max(1, len // divisor)`; at most `limit` of them. */
  function SampledPositions(len: nat, divisor: nat, limit: nat): (r: seq<nat>)
    requires divisor >= 1
    ensures forall k :: 0 <= k < |r| ==> r[k] <= len
  {
    var q := len / divisor;
    var step := if q < 1 then 1 else q;
    RangeMeaning(step, len, step);
    Take([0, len] + (if len > 2 then Range(step, len, step) else []), limit)
  }

  /** Positions greedy repair tries for a lone customer (divisor
      `min(10, len)`, at most 50). */
  function GreedySinglePositions(len: nat): seq<nat>
  {
    SampledPositions(len, if len == 0 then 1 else Min(10, len), 50)
  }

  /** Positions greedy repair tries for a pickup (divisor `min(5, len)`, at most 20). */
  function GreedyPickupPositions(len: nat): seq<nat>
  {
    SampledPositions(len, if len == 0 then 1 else Min(5, len), 20)
  }

  /** Positions regret repair tries for a lone customer (divisor 5, at most 15). */
  function RegretSinglePositions(len: nat): seq<nat>
  {
    SampledPositions(len, 5, 15)
  }

  /** Positions regret repair tries for a pickup: both ends, and the middle
      of a route longer than 10. */
  function RegretPickupPositions(len: nat): (r: seq<nat>)
    ensures forall k :: 0 <= k < |r| ==> r[k] <= len
  {
    Take(if len <= 10 then [0, len] else [0, len / 2, len], 5)
  }

  /** Positions tried for the dropoff after a pickup at `pp`: right after
      it and the far end, plus (greedy, when more than two stops follow)
      halfway between. */
  function DropoffPositions(len: nat, pp: nat, greedy: bool): (r: seq<nat>)
    requires pp <= len
    ensures forall k :: 0 <= k < |r| ==> pp < r[k] <= len + 1
  {
    if greedy then
      Take([pp + 1, len + 1] + (if len - pp > 2 then [pp + (len - pp) / 2] else []), 10)
    else
      Take([pp + 1, len + 1], 3)
  }

  /** The (pickup, dropoff) placements tried at pickup position `pp`, in
      order, skipping a dropoff position not after `pp`. */
  function PairsAt(pp: nat, dls: seq<nat>): (r: seq<seq<nat>>)
    ensures |r| <= |dls|
    ensures forall k :: 0 <= k < |r| ==> |r[k]| == 2 && r[k][0] == pp && r[k][1] > pp && r[k][1] in dls
    ensures forall dl :: dl in dls && dl > pp ==> [pp, dl] in r
  {
    if |dls| == 0 then []
    else
      var rest := PairsAt(pp, dls[1..]);
      if dls[0] <= pp then rest else [[pp, dls[0]]] + rest
  }

  /** One group of pair placements per pickup position. */
  function PairGroups(len: nat, pps: seq<nat>, greedy: bool): (r: seq<seq<seq<nat>>>)
    requires forall k :: 0 <= k < |pps| ==> pps[k] <= len
    ensures |r| == |pps|
    ensures forall k :: 0 <= k < |pps| ==> r[k] == PairsAt(pps[k], DropoffPositions(len, pps[k], greedy))
  {
    seq(|pps|, k requires 0 <= k < |pps| => PairsAt(pps[k], DropoffPositions(len, pps[k], greedy)))
  }

  function Singles(ps: seq<nat>): (r: seq<seq<nat>>)
    ensures |r| == |ps| && forall k :: 0 <= k < |ps| ==> r[k] == [ps[k]]
  {
    seq(|ps|, k requires 0 <= k < |ps| => [ps[k]])
  }

  /** The placements a unit is tried at in a route of length `len`, in the
      order of the source's loops, in groups: the regret operator stops a
      group early once it has enough options. Greedy repair tries them all. */
  function PlacementGroups(len: nat, u: Unit, greedy: bool): (r: seq<seq<seq<nat>>>)
    ensures forall g, k :: 0 <= g < |r| && 0 <= k < |r[g]| ==> Fits(len, u, r[g][k])
  {
    match u
    case Single(_) =>
      [Singles(if greedy then GreedySinglePositions(len) else RegretSinglePositions(len))]
    case Pair(_, _) =>
      PairGroups(len, if greedy then GreedyPickupPositions(len) else RegretPickupPositions(len), greedy)
  }

  // ---------------------------------------------------------------------
  // Candidate routes
  // ---------------------------------------------------------------------

  /** `positions` names an insertion point for each id of `u` in a route of
      length `len`: a position up to `len`, and for a pair a dropoff position
      after the pickup position and at most `len + 1`. */
  predicate Fits(len: nat, u: Unit, positions: seq<nat>)
  {
    && |positions| == |UnitIds(u)|
    && positions[0] <= len
    && (u.Pair? ==> positions[0] < positions[1] <= len + 1)
  }

  /** All placements of a unit, group after group. */
  function Placements(len: nat, u: Unit, greedy: bool): (r: seq<seq<nat>>)
    ensures forall ps :: ps in r ==> Fits(len, u, ps)
  {
    var gs := PlacementGroups(len, u, greedy);
    forall ps | ps in Flatten(gs) ensures Fits(len, u, ps) {
      FlattenMember(gs, ps);
    }
    Flatten(gs)
  }

  /** The `test_route` the source checks and costs: the route with the ids
      of `u` spliced in. The source's slices clip a dropoff position of
      `len + 1` to the end of the route. */
  function Candidate(route: seq<nat>, u: Unit, positions: seq<nat>): (r: seq<nat>)
    requires Fits(|route|, u, positions)
    ensures |r| == |route| + |UnitIds(u)|
  {
    match u
    case Single(id) =>
      var pos := positions[0];
      route[..pos] + [id] + route[pos..]
    case Pair(pk, d) =>
      var pp := positions[0];
      var cut := Min(positions[1], |route|);
      route[..pp] + [pk] + route[pp..cut] + [d] + route[cut..]
  }

  /** A candidate route holds the old stops and the unit's ids, nothing else. */
  lemma CandidateMultiset(route: seq<nat>, u: Unit, positions: seq<nat>)
    requires Fits(|route|, u, positions)
    ensures multiset(Candidate(route, u, positions)) == multiset(route) + multiset(UnitIds(u))
  {
    match u
    case Single(id) =>
      SpliceOne(route, positions[0], id);
    case Pair(pk, d) =>
      SpliceTwo(route, positions[0], Min(positions[1], |route|), pk, d);
  }

  lemma SpliceOne(s: seq<nat>, i: nat, x: nat)
    requires i <= |s|
    ensures multiset(s[..i] + [x] + s[i..]) == multiset(s) + multiset{x}
  {
    assert s == s[..i] + s[i..];
  }

  lemma SpliceTwo(s: seq<nat>, i: nat, j: nat, x: nat, y: nat)
    requires i <= j <= |s|
    ensures multiset(s[..i] + [x] + s[i..j] + [y] + s[j..]) == multiset(s) + multiset{x, y}
  {
    assert s == s[..i] + s[i..j] + s[j..];
  }

  /** Python's `list.insert(i, x)` for `i >= 0`. */
  function InsertAt(s: seq<nat>, i: nat, x: nat): (r: seq<nat>)
    ensures |r| == |s| + 1
  {
    if i >= |s| then s + [x] else s[..i] + [x] + s[i..]
  }

  lemma InsertAtMultiset(s: seq<nat>, i: nat, x: nat)
    ensures multiset(InsertAt(s, i, x)) == multiset(s) + multiset{x}
  {
    if i < |s| {
      SpliceOne(s, i, x);
    }
  }

  /** The insertion the source performs for its chosen placement:
      `insert(p_pos, p_id)` and then `insert(dl_pos, dl_id)` on the list
      that already holds the pickup. */
  function CommitAsWritten(route: seq<nat>, u: Unit, positions: seq<nat>): (r: seq<nat>)
    requires |positions| == |UnitIds(u)|
    ensures |r| == |route| + |UnitIds(u)|
  {
    match u
    case Single(id) => InsertAt(route, positions[0], id)
    case Pair(pk, d) => InsertAt(InsertAt(route, positions[0], pk), positions[1], d)
  }

  /** The two inserts add exactly the unit's ids, wherever they land. */
  lemma CommitMultiset(route: seq<nat>, u: Unit, positions: seq<nat>)
    requires |positions| == |UnitIds(u)|
    ensures multiset(CommitAsWritten(route, u, positions)) == multiset(route) + multiset(UnitIds(u))
  {
    match u
    case Single(id) =>
      InsertAtMultiset(route, positions[0], id);
    case Pair(pk, d) =>
      var once := InsertAt(route, positions[0], pk);
      InsertAtMultiset(route, positions[0], pk);
      InsertAtMultiset(once, positions[1], d);
      assert multiset(UnitIds(u)) == multiset{pk} + multiset{d};
  }

  /** A lone customer is inserted exactly where it was checked. */
  lemma SingleCommitIsCandidate(route: seq<nat>, id: nat, positions: seq<nat>)
    requires Fits(|route|, Single(id), positions)
    ensures CommitAsWritten(route, Single(id), positions) == Candidate(route, Single(id), positions)
  {
  }

  /** The two inserts of a pair, spelled out on the original route. */
  lemma {:induction false} PairCommitShape(route: seq<nat>, pk: nat, d: nat, pp: nat, dl: nat)
    requires pp < dl <= |route| + 1
    ensures InsertAt(InsertAt(route, pp, pk), dl, d)
              == route[..pp] + [pk] + route[pp..dl - 1] + [d] + route[dl - 1..]
  {
    var once := InsertAt(route, pp, pk);
    assert once == route[..pp] + [pk] + route[pp..] by {
      if pp == |route| {
        assert route[..pp] == route && route[pp..] == [];
      }
    }
    if dl == |once| {
      assert route[pp..dl - 1] == route[pp..] && route[dl - 1..] == [];
    } else {
      assert once[..dl] == route[..pp] + [pk] + route[pp..dl - 1];
      assert once[dl..] == route[dl - 1..];
    }
  }

  /** For a pair, the second `insert` counts positions in the list that
      already holds the pickup, so the dropoff lands one stop earlier than in
      the checked route: the two agree exactly when the dropoff goes to the
      end or the stop it is moved before is the dropoff itself. */
  lemma {:induction false} PairCommitShift(route: seq<nat>, pk: nat, d: nat, positions: seq<nat>)
    requires Fits(|route|, Pair(pk, d), positions)
    ensures var pp := positions[0]; var dl := positions[1];
            && CommitAsWritten(route, Pair(pk, d), positions)
                 == route[..pp] + [pk] + route[pp..dl - 1] + [d] + route[dl - 1..]
            && (CommitAsWritten(route, Pair(pk, d), positions) == Candidate(route, Pair(pk, d), positions)
                <==> dl == |route| + 1 || route[dl - 1] == d)
  {
    var pp := positions[0];
    var dl := positions[1];
    PairCommitShape(route, pk, d, pp, dl);
    if dl == |route| + 1 {
      assert route[pp..dl - 1] == route[pp..|route|] && route[dl - 1..] == route[|route|..];
    } else {
      assert Candidate(route, Pair(pk, d), positions) == route[..pp] + [pk] + route[pp..dl] + [d] + route[dl..];
      ShiftedEqualIff(route, pk, d, pp, dl);
    }
  }

  /** Inside the route, moving the dropoff one stop earlier changes the
      route unless the stop it passes is the dropoff itself. */
  lemma ShiftedEqualIff(route: seq<nat>, pk: nat, d: nat, pp: nat, dl: nat)
    requires pp < dl <= |route|
    ensures route[..pp] + [pk] + route[pp..dl - 1] + [d] + route[dl - 1..]
              == route[..pp] + [pk] + route[pp..dl] + [d] + route[dl..]
            <==> route[dl - 1] == d
  {
    var a := route[..pp] + [pk] + route[pp..dl - 1];
    var x := route[dl - 1];
    var b := route[dl..];
    assert route[pp..dl] == route[pp..dl - 1] + [x];
    assert route[dl - 1..] == [x] + b;
    var shifted := a + [d] + [x] + b;
    var cand := a + [x] + [d] + b;
    assert route[..pp] + [pk] + route[pp..dl - 1] + [d] + route[dl - 1..] == shifted;
    assert route[..pp] + [pk] + route[pp..dl] + [d] + route[dl..] == cand;
    assert shifted[|a|] == d && cand[|a|] == x;
  }

  /** One place where the inserted route differs from the checked one: a
      pickup and dropoff placed at positions 0 and 1 of a one-stop route. */
  lemma PairCommitDiffers(a: nat, pk: nat, d: nat)
    requires a != d
    ensures Candidate([a], Pair(pk, d), [0, 1]) == [pk, a, d]
    ensures CommitAsWritten([a], Pair(pk, d), [0, 1]) == [pk, d, a]
  {
    CandidateExample(a, pk, d);
    CommitExample(a, pk, d);
  }

  lemma {:induction false} CandidateExample(a: nat, pk: nat, d: nat)
    ensures Candidate([a], Pair(pk, d), [0, 1]) == [pk, a, d]
  {
    assert [a][..0] == [] && [a][0..1] == [a] && [a][1..] == [];
  }

  lemma {:induction false} CommitExample(a: nat, pk: nat, d: nat)
    ensures CommitAsWritten([a], Pair(pk, d), [0, 1]) == [pk, d, a]
  {
    assert [a][..0] == [] && [a][0..] == [a];
    assert InsertAt([a], 0, pk) == [pk, a];
    assert [pk, a][..1] == [pk] && [pk, a][1..] == [a];
  }

  /** A candidate built from ids of the instance stays within the instance. */
  lemma CandidateInRange(inst: Instance, route: seq<nat>, u: Unit, positions: seq<nat>)
    requires RouteInRange(inst, route) && UnitInRange(inst, u) && Fits(|route|, u, positions)
    ensures RouteInRange(inst, Candidate(route, u, positions))
  {
    CandidateMultiset(route, u, positions);
    GrownInRange(inst, route, u, Candidate(route, u, positions));
  }

  /** So does the route the source's two inserts build. */
  lemma CommitInRange(inst: Instance, route: seq<nat>, u: Unit, positions: seq<nat>)
    requires RouteInRange(inst, route) && UnitInRange(inst, u) && |positions| == |UnitIds(u)|
    ensures RouteInRange(inst, CommitAsWritten(route, u, positions))
  {
    CommitMultiset(route, u, positions);
    GrownInRange(inst, route, u, CommitAsWritten(route, u, positions));
  }

  /** A route holding an in-range route's stops and a unit's ids is in range. */
  lemma GrownInRange(inst: Instance, route: seq<nat>, u: Unit, c: seq<nat>)
    requires RouteInRange(inst, route) && UnitInRange(inst, u)
    requires multiset(c) == multiset(route) + multiset(UnitIds(u))
    ensures RouteInRange(inst, c)
  {
    forall k | 0 <= k < |c| ensures 1 <= c[k] <= |inst.customers| {
      assert c[k] in multiset(c);
      if c[k] in multiset(route) {
        var j :| 0 <= j < |route| && route[j] == c[k];
      } else {
        assert c[k] in multiset(UnitIds(u));
        var j :| 0 <= j < |UnitIds(u)| && UnitIds(u)[j] == c[k];
      }
    }
  }

  // ---------------------------------------------------------------------
  // Options
  // ---------------------------------------------------------------------

  /** An option: a placement that passed `check_truck_route`, the truck it is
      in and the `calculate_truck_time` of the candidate route. */
  datatype Choice = Choice(truck: nat, positions: seq<nat>, cost: real)

  /** What checking and costing candidates in `route` needs. */
  predicate Scannable(inst: Instance, p: Parameters, route: seq<nat>, u: Unit)
  {
    DistShaped(inst) && RouteInRange(inst, route) && UnitInRange(inst, u) && p.truckSpeed != 0.0
  }

  /** The body of the source's inner loops for one placement: the option it
      records when the candidate route passes the check. */
  function Try(inst: Instance, p: Parameters, t: nat, route: seq<nat>, u: Unit, positions: seq<nat>): (r: Option<Choice>)
    requires Scannable(inst, p, route, u) && Fits(|route|, u, positions)
  {
    var cand := Candidate(route, u, positions);
    CandidateInRange(inst, route, u, positions);
    if CheckRoute(inst, p, cand) then Some(Choice(t, positions, TruckTime(inst, p, cand))) else None
  }

  /** An option recorded for a placement is that placement, in that truck,
      costed at the truck time of its candidate route, which passes the check. */
  lemma TryMeaning(inst: Instance, p: Parameters, t: nat, route: seq<nat>, u: Unit, positions: seq<nat>)
    requires Scannable(inst, p, route, u) && Fits(|route|, u, positions)
    ensures RouteInRange(inst, Candidate(route, u, positions))
    ensures var r := Try(inst, p, t, route, u, positions);
            && (r.Some? <==> CheckRoute(inst, p, Candidate(route, u, positions)))
            && (r.Some? ==> r.value == Choice(t, positions, TruckTime(inst, p, Candidate(route, u, positions))))
  {
    CandidateInRange(inst, route, u, positions);
  }

  /** Every placement of the list tried in order; the options of those that pass. */
  function ScanAll(inst: Instance, p: Parameters, t: nat, route: seq<nat>, u: Unit, placements: seq<seq<nat>>): (r: seq<Choice>)
    requires Scannable(inst, p, route, u)
    requires forall ps :: ps in placements ==> Fits(|route|, u, ps)
    ensures forall c :: c in r ==> c.truck == t && c.positions in placements
  {
    if |placements| == 0 then []
    else
      var rest := ScanAll(inst, p, t, route, u, placements[1..]);
      assert forall ps :: ps in placements <==> ps == placements[0] || ps in placements[1..];
      match Try(inst, p, t, route, u, placements[0])
      case None => rest
      case Some(c) => [c] + rest
  }

  /** A full scan records an option for a placement exactly when the
      placement passes, and then the option the check gave. */
  lemma {:induction false} ScanAllMeaning(inst: Instance, p: Parameters, t: nat, route: seq<nat>, u: Unit, placements: seq<seq<nat>>)
    requires Scannable(inst, p, route, u)
    requires forall ps :: ps in placements ==> Fits(|route|, u, ps)
    ensures var r := ScanAll(inst, p, t, route, u, placements);
            && (forall c :: c in r ==> Try(inst, p, t, route, u, c.positions) == Some(c))
            && (forall ps :: ps in placements && Try(inst, p, t, route, u, ps).Some? ==> Try(inst, p, t, route, u, ps).value in r)
    decreases |placements|
  {
    if |placements| > 0 {
      assert forall ps :: ps in placements <==> ps == placements[0] || ps in placements[1..];
      ScanAllMeaning(inst, p, t, route, u, placements[1..]);
    }
  }

  /** The options for `u` in trucks `t`, `t + 1`, ...: every sampled
      placement (greedy repair's samples or regret repair's) that passes the
      check, in truck order. */
  function AllOptions(inst: Instance, p: Parameters, routes: seq<seq<nat>>, u: Unit, greedy: bool, t: nat): (r: seq<Choice>)
    requires DistShaped(inst) && RoutesInRange(inst, routes) && UnitInRange(inst, u) && p.truckSpeed != 0.0
    requires t <= |routes|
    ensures forall c :: c in r ==> t <= c.truck < |routes| && c.positions in Placements(|routes[c.truck]|, u, greedy)
    decreases |routes| - t
  {
    if t == |routes| then []
    else
      ScanAll(inst, p, t, routes[t], u, Placements(|routes[t]|, u, greedy))
        + AllOptions(inst, p, routes, u, greedy, t + 1)
  }

  /** Every option is the one the check gave for its placement. */
  lemma {:induction false} AllOptionsSound(inst: Instance, p: Parameters, routes: seq<seq<nat>>, u: Unit, greedy: bool, t: nat, c: Choice)
    requires DistShaped(inst) && RoutesInRange(inst, routes) && UnitInRange(inst, u) && p.truckSpeed != 0.0
    requires t <= |routes| && c in AllOptions(inst, p, routes, u, greedy, t)
    ensures Try(inst, p, c.truck, routes[c.truck], u, c.positions) == Some(c)
    decreases |routes| - t
  {
    var here := ScanAll(inst, p, t, routes[t], u, Placements(|routes[t]|, u, greedy));
    assert AllOptions(inst, p, routes, u, greedy, t) == here + AllOptions(inst, p, routes, u, greedy, t + 1);
    if c in here {
      ScanAllMeaning(inst, p, t, routes[t], u, Placements(|routes[t]|, u, greedy));
    } else {
      AllOptionsSound(inst, p, routes, u, greedy, t + 1, c);
    }
  }

  /** Every sampled placement in trucks from `t` on that passes the check
      gives an option. */
  lemma {:induction false} AllOptionsComplete(inst: Instance, p: Parameters, routes: seq<seq<nat>>, u: Unit, greedy: bool, t: nat, t': nat, ps: seq<nat>)
    requires DistShaped(inst) && RoutesInRange(inst, routes) && UnitInRange(inst, u) && p.truckSpeed != 0.0
    requires t <= t' < |routes| && ps in Placements(|routes[t']|, u, greedy)
    requires Try(inst, p, t', routes[t'], u, ps).Some?
    ensures Try(inst, p, t', routes[t'], u, ps).value in AllOptions(inst, p, routes, u, greedy, t)
    decreases |routes| - t
  {
    var here := ScanAll(inst, p, t, routes[t], u, Placements(|routes[t]|, u, greedy));
    assert AllOptions(inst, p, routes, u, greedy, t) == here + AllOptions(inst, p, routes, u, greedy, t + 1);
    if t' == t {
      ScanAllMeaning(inst, p, t, routes[t], u, Placements(|routes[t]|, u, greedy));
    } else {
      AllOptionsComplete(inst, p, routes, u, greedy, t + 1, t', ps);
    }
  }

  /** The options are the sampled placements in trucks from `t` on that pass
      the check, each with the option the check gave. */
  lemma AllOptionsMeaning(inst: Instance, p: Parameters, routes: seq<seq<nat>>, u: Unit, greedy: bool, t: nat)
    requires DistShaped(inst) && RoutesInRange(inst, routes) && UnitInRange(inst, u) && p.truckSpeed != 0.0
    requires t <= |routes|
    ensures var r := AllOptions(inst, p, routes, u, greedy, t);
            && (forall c :: c in r ==> Try(inst, p, c.truck, routes[c.truck], u, c.positions) == Some(c))
            && (forall t', ps ::
                  (t <= t' < |routes| && ps in Placements(|routes[t']|, u, greedy) && Try(inst, p, t', routes[t'], u, ps).Some?)
                  ==> Try(inst, p, t', routes[t'], u, ps).value in r)
  {
    forall c | c in AllOptions(inst, p, routes, u, greedy, t)
      ensures Try(inst, p, c.truck, routes[c.truck], u, c.positions) == Some(c)
    {
      AllOptionsSound(inst, p, routes, u, greedy, t, c);
    }
    forall t', ps | t <= t' < |routes| && ps in Placements(|routes[t']|, u, greedy) && Try(inst, p, t', routes[t'], u, ps).Some?
      ensures Try(inst, p, t', routes[t'], u, ps).value in AllOptions(inst, p, routes, u, greedy, t)
    {
      AllOptionsComplete(inst, p, routes, u, greedy, t, t', ps);
    }
  }

  /** Greedy repair's running best: an option replaces the best so far only
      when it is strictly cheaper. */
  function BestFrom(cs: seq<Choice>, best: Option<Choice>): (r: Option<Choice>)
    ensures r == best || (r.Some? && r.value in cs)
  {
    if |cs| == 0 then best
    else BestFrom(cs[1..], if best.None? || cs[0].cost < best.value.cost then Some(cs[0]) else best)
  }

  /** The option greedy repair keeps: the first of the cheapest. */
  function Cheapest(cs: seq<Choice>): (r: Option<Choice>)
    ensures r.None? || r.value in cs
  {
    BestFrom(cs, None)
  }

  /** The running best ends at the best so far or at an option of `cs` that
      is cheaper than it, cheaper than every option before it and no dearer
      than any option. */
  lemma BestFromMeaning(cs: seq<Choice>, best: Option<Choice>)
    ensures var r := BestFrom(cs, best);
            && (r.None? <==> best.None? && |cs| == 0)
            && (r.Some? ==> forall j :: 0 <= j < |cs| ==> r.value.cost <= cs[j].cost)
            && (r.Some? && best.Some? ==> r.value.cost <= best.value.cost)
            && (|| r == best
                || exists k ::
                     && 0 <= k < |cs| && r == Some(cs[k])
                     && (best.Some? ==> cs[k].cost < best.value.cost)
                     && forall j :: 0 <= j < k ==> cs[k].cost < cs[j].cost)
  {
    BestFromLeast(cs, best);
    BestFromFirst(cs, best);
  }

  /** The running best ends no costlier than any option or the start. */
  lemma {:induction false} BestFromLeast(cs: seq<Choice>, best: Option<Choice>)
    ensures var r := BestFrom(cs, best);
            && (r.None? <==> best.None? && |cs| == 0)
            && (r.Some? ==> forall j :: 0 <= j < |cs| ==> r.value.cost <= cs[j].cost)
            && (r.Some? && best.Some? ==> r.value.cost <= best.value.cost)
  {
    if |cs| > 0 {
      var b := if best.None? || cs[0].cost < best.value.cost then Some(cs[0]) else best;
      BestFromLeast(cs[1..], b);
      assert BestFrom(cs, best) == BestFrom(cs[1..], b);
      assert forall j :: 1 <= j < |cs| ==> cs[1..][j - 1] == cs[j];
    }
  }

  /** Option `k` is strictly cheaper than the start and than every option
      before it. */
  predicate StrictlyFirst(cs: seq<Choice>, best: Option<Choice>, k: int)
  {
    && 0 <= k < |cs|
    && (best.Some? ==> cs[k].cost < best.value.cost)
    && forall j :: 0 <= j < k ==> cs[k].cost < cs[j].cost
  }

  /** The running best changes only to an option strictly cheaper than the
      start and than every option before it. */
  lemma {:induction false} BestFromFirst(cs: seq<Choice>, best: Option<Choice>)
    ensures var r := BestFrom(cs, best);
            r == best || exists k :: StrictlyFirst(cs, best, k) && r == Some(cs[k])
  {
    if |cs| > 0 {
      var b := if best.None? || cs[0].cost < best.value.cost then Some(cs[0]) else best;
      BestFromFirst(cs[1..], b);
      var r := BestFrom(cs, best);
      assert r == BestFrom(cs[1..], b);
      if r != best && r == b {
        assert StrictlyFirst(cs, best, 0);
      } else if r != best {
        var k :| StrictlyFirst(cs[1..], b, k) && r == Some(cs[1..][k]);
        assert cs[1..][k] == cs[k + 1];
        assert forall j :: 0 < j < k + 1 ==> cs[1..][j - 1] == cs[j];
        assert StrictlyFirst(cs, best, k + 1);
      }
    }
  }

  /** Greedy repair keeps no option when there is none, and otherwise the
      first option of least cost. */
  lemma CheapestMeaning(cs: seq<Choice>)
    ensures Cheapest(cs).None? <==> |cs| == 0
    ensures Cheapest(cs).Some? ==>
              exists k ::
                && 0 <= k < |cs| && Cheapest(cs) == Some(cs[k])
                && (forall j :: 0 <= j < |cs| ==> cs[k].cost <= cs[j].cost)
                && (forall j :: 0 <= j < k ==> cs[k].cost < cs[j].cost)
  {
    BestFromMeaning(cs, None);
  }

  /** No option is cheaper than the one kept. */
  lemma CheapestLeast(cs: seq<Choice>, o: Choice)
    requires o in cs
    ensures Cheapest(cs).Some? && Cheapest(cs).value.cost <= o.cost
  {
    CheapestMeaning(cs);
    var j :| 0 <= j < |cs| && cs[j] == o;
  }

  // ---------------------------------------------------------------------
  // Greedy insertion
  // ---------------------------------------------------------------------

  /** Placing `ps` in truck `t` is one of the sampled placements (greedy
      repair's or regret repair's) and passes the check. */
  ghost predicate Feasible(inst: Instance, p: Parameters, routes: seq<seq<nat>>, u: Unit, greedy: bool, t: int, ps: seq<nat>)
    requires DistShaped(inst) && RoutesInRange(inst, routes) && UnitInRange(inst, u) && p.truckSpeed != 0.0
  {
    && 0 <= t < |routes| && ps in Placements(|routes[t]|, u, greedy)
    && Try(inst, p, t, routes[t], u, ps).Some?
  }

  /** The truck time of a feasible placement's candidate route. */
  ghost function Cost(inst: Instance, p: Parameters, routes: seq<seq<nat>>, u: Unit, greedy: bool, t: int, ps: seq<nat>): real
    requires DistShaped(inst) && RoutesInRange(inst, routes) && UnitInRange(inst, u) && p.truckSpeed != 0.0
    requires Feasible(inst, p, routes, u, greedy, t, ps)
  {
    Try(inst, p, t, routes[t], u, ps).value.cost
  }

  /** One round of greedy_insertion's insertion loop. The unit goes into the
      route of its cheapest option by the source's two inserts
      (`CommitAsWritten`), which for a pair put the dropoff one stop earlier
      than in the route that was checked and costed. With no option it is
      appended to the first route, which fails when there is none. */
  function GreedyPlace(inst: Instance, p: Parameters, routes: seq<seq<nat>>, u: Unit): (r: Result<seq<seq<nat>>, string>)
    requires DistShaped(inst) && RoutesInRange(inst, routes) && UnitInRange(inst, u) && p.truckSpeed != 0.0
    ensures r.Success? ==> |r.value| == |routes| && RoutesInRange(inst, r.value)
  {
    var best := Cheapest(AllOptions(inst, p, routes, u, true, 0));
    if best.Some? then
      var c := best.value;
      BestFits(inst, p, routes, u);
      var route := CommitAsWritten(routes[c.truck], u, c.positions);
      assert RoutesInRange(inst, routes[c.truck := route]) by {
        CommitInRange(inst, routes[c.truck], u, c.positions);
        UpdateInRange(inst, routes, c.truck, route);
      }
      Success(routes[c.truck := route])
    else if |routes| == 0 then Failure("list index out of range")
    else
      assert RoutesInRange(inst, routes[0 := routes[0] + UnitIds(u)]) by {
        AppendInRange(inst, routes[0], UnitIds(u));
        UpdateInRange(inst, routes, 0, routes[0] + UnitIds(u));
      }
      Success(routes[0 := routes[0] + UnitIds(u)])
  }

  /** The same round as evidently intended: the unit goes into the route of
      its cheapest option as the candidate route that was checked and
      costed. */
  function GreedyPlaceIntended(inst: Instance, p: Parameters, routes: seq<seq<nat>>, u: Unit): (r: Result<seq<seq<nat>>, string>)
    requires DistShaped(inst) && RoutesInRange(inst, routes) && UnitInRange(inst, u) && p.truckSpeed != 0.0
    ensures r.Success? ==> |r.value| == |routes| && RoutesInRange(inst, r.value)
  {
    var best := Cheapest(AllOptions(inst, p, routes, u, true, 0));
    if best.Some? then
      var c := best.value;
      BestFits(inst, p, routes, u);
      var route := Candidate(routes[c.truck], u, c.positions);
      assert RoutesInRange(inst, routes[c.truck := route]) by {
        CandidateInRange(inst, routes[c.truck], u, c.positions);
        UpdateInRange(inst, routes, c.truck, route);
      }
      Success(routes[c.truck := route])
    else if |routes| == 0 then Failure("list index out of range")
    else
      assert RoutesInRange(inst, routes[0 := routes[0] + UnitIds(u)]) by {
        AppendInRange(inst, routes[0], UnitIds(u));
        UpdateInRange(inst, routes, 0, routes[0] + UnitIds(u));
      }
      Success(routes[0 := routes[0] + UnitIds(u)])
  }

  /** Greedy repair's best option names a truck and a placement that fits
      that truck's route. */
  lemma BestFits(inst: Instance, p: Parameters, routes: seq<seq<nat>>, u: Unit)
    requires DistShaped(inst) && RoutesInRange(inst, routes) && UnitInRange(inst, u) && p.truckSpeed != 0.0
    requires Cheapest(AllOptions(inst, p, routes, u, true, 0)).Some?
    ensures var c := Cheapest(AllOptions(inst, p, routes, u, true, 0)).value;
            c.truck < |routes| && Fits(|routes[c.truck]|, u, c.positions)
  {
    var c := Cheapest(AllOptions(inst, p, routes, u, true, 0)).value;
    assert c in AllOptions(inst, p, routes, u, true, 0);
    assert c.positions in Placements(|routes[c.truck]|, u, true);
  }

  /** Greedy repair has no option exactly when no sampled placement is
      feasible. */
  lemma GreedyNone(inst: Instance, p: Parameters, routes: seq<seq<nat>>, u: Unit)
    requires DistShaped(inst) && RoutesInRange(inst, routes) && UnitInRange(inst, u) && p.truckSpeed != 0.0
    ensures Cheapest(AllOptions(inst, p, routes, u, true, 0)).None? <==>
              forall t, ps :: !Feasible(inst, p, routes, u, true, t, ps)
  {
    var opts := AllOptions(inst, p, routes, u, true, 0);
    AllOptionsMeaning(inst, p, routes, u, true, 0);
    CheapestMeaning(opts);
    if |opts| > 0 {
      assert Feasible(inst, p, routes, u, true, opts[0].truck, opts[0].positions);
    }
  }

  /** Greedy repair's best option is a feasible sampled placement of least
      truck time. */
  lemma GreedyBest(inst: Instance, p: Parameters, routes: seq<seq<nat>>, u: Unit)
    requires DistShaped(inst) && RoutesInRange(inst, routes) && UnitInRange(inst, u) && p.truckSpeed != 0.0
    requires Cheapest(AllOptions(inst, p, routes, u, true, 0)).Some?
    ensures var c := Cheapest(AllOptions(inst, p, routes, u, true, 0)).value;
            && Feasible(inst, p, routes, u, true, c.truck, c.positions)
            && Try(inst, p, c.truck, routes[c.truck], u, c.positions) == Some(c)
            && forall t', ps' :: Feasible(inst, p, routes, u, true, t', ps') ==>
                 c.cost <= Cost(inst, p, routes, u, true, t', ps')
  {
    var opts := AllOptions(inst, p, routes, u, true, 0);
    var c := Cheapest(opts).value;
    AllOptionsSound(inst, p, routes, u, true, 0, c);
    forall t', ps' | Feasible(inst, p, routes, u, true, t', ps')
      ensures c.cost <= Cost(inst, p, routes, u, true, t', ps')
    {
      AllOptionsComplete(inst, p, routes, u, true, 0, t', ps');
      CheapestLeast(opts, Try(inst, p, t', routes[t'], u, ps').value);
    }
  }

  /** Greedy repair fails only without trucks. */
  lemma GreedyPlaceFails(inst: Instance, p: Parameters, routes: seq<seq<nat>>, u: Unit)
    requires DistShaped(inst) && RoutesInRange(inst, routes) && UnitInRange(inst, u) && p.truckSpeed != 0.0
    ensures GreedyPlace(inst, p, routes, u).Failure? <==> |routes| == 0
  {
    var opts := AllOptions(inst, p, routes, u, true, 0);
    AllOptionsMeaning(inst, p, routes, u, true, 0);
    CheapestMeaning(opts);
  }

  /** When some sampled placement passes the check, greedy repair applies
      the source's two inserts for one whose truck time is no more than any
      other passing placement's; otherwise it appends the unit to the first
      route. */
  lemma GreedyPlaceMeaning(inst: Instance, p: Parameters, routes: seq<seq<nat>>, u: Unit)
    requires DistShaped(inst) && RoutesInRange(inst, routes) && UnitInRange(inst, u) && p.truckSpeed != 0.0
    ensures var r := GreedyPlace(inst, p, routes, u);
            && ((exists t, ps :: Feasible(inst, p, routes, u, true, t, ps)) ==>
                  exists t, ps ::
                    && Feasible(inst, p, routes, u, true, t, ps)
                    && r == Success(routes[t := CommitAsWritten(routes[t], u, ps)])
                    && forall t', ps' :: Feasible(inst, p, routes, u, true, t', ps') ==>
                         Cost(inst, p, routes, u, true, t, ps) <= Cost(inst, p, routes, u, true, t', ps'))
            && ((forall t, ps :: !Feasible(inst, p, routes, u, true, t, ps)) && |routes| > 0 ==>
                  r == Success(routes[0 := routes[0] + UnitIds(u)]))
  {
    GreedyNone(inst, p, routes, u);
    var best := Cheapest(AllOptions(inst, p, routes, u, true, 0));
    if best.Some? {
      GreedyBest(inst, p, routes, u);
      var c := best.value;
      assert Cost(inst, p, routes, u, true, c.truck, c.positions) == c.cost;
      assert GreedyPlace(inst, p, routes, u) == Success(routes[c.truck := CommitAsWritten(routes[c.truck], u, c.positions)]);
    }
  }

  /** The intended round commits, in the truck of a least-cost passing
      placement, exactly the candidate route that passed the check. */
  lemma GreedyPlaceIntendedMeaning(inst: Instance, p: Parameters, routes: seq<seq<nat>>, u: Unit)
    requires DistShaped(inst) && RoutesInRange(inst, routes) && UnitInRange(inst, u) && p.truckSpeed != 0.0
    ensures var r := GreedyPlaceIntended(inst, p, routes, u);
            && ((exists t, ps :: Feasible(inst, p, routes, u, true, t, ps)) ==>
                  exists t, ps ::
                    && Feasible(inst, p, routes, u, true, t, ps)
                    && r == Success(routes[t := Candidate(routes[t], u, ps)])
                    && CheckRoute(inst, p, r.value[t])
                    && forall t', ps' :: Feasible(inst, p, routes, u, true, t', ps') ==>
                         Cost(inst, p, routes, u, true, t, ps) <= Cost(inst, p, routes, u, true, t', ps'))
            && ((forall t, ps :: !Feasible(inst, p, routes, u, true, t, ps)) && |routes| > 0 ==>
                  r == Success(routes[0 := routes[0] + UnitIds(u)]))
  {
    GreedyNone(inst, p, routes, u);
    var best := Cheapest(AllOptions(inst, p, routes, u, true, 0));
    if best.Some? {
      GreedyBest(inst, p, routes, u);
      var c := best.value;
      TryMeaning(inst, p, c.truck, routes[c.truck], u, c.positions);
      assert Cost(inst, p, routes, u, true, c.truck, c.positions) == c.cost;
      assert GreedyPlaceIntended(inst, p, routes, u) == Success(routes[c.truck := Candidate(routes[c.truck], u, c.positions)]);
    }
  }

  /** For a lone customer the round as written and as intended agree. */
  lemma GreedyPlaceSingle(inst: Instance, p: Parameters, routes: seq<seq<nat>>, id: nat)
    requires DistShaped(inst) && RoutesInRange(inst, routes) && UnitInRange(inst, Single(id)) && p.truckSpeed != 0.0
    ensures GreedyPlace(inst, p, routes, Single(id)) == GreedyPlaceIntended(inst, p, routes, Single(id))
  {
    var best := Cheapest(AllOptions(inst, p, routes, Single(id), true, 0));
    if best.Some? {
      BestFits(inst, p, routes, Single(id));
      SingleCommitIsCandidate(routes[best.value.truck], id, best.value.positions);
    }
  }

  /** A successful round of greedy repair adds exactly the unit's ids. */
  lemma GreedyPlaceGrows(inst: Instance, p: Parameters, routes: seq<seq<nat>>, u: Unit)
    requires DistShaped(inst) && RoutesInRange(inst, routes) && UnitInRange(inst, u) && p.truckSpeed != 0.0
    requires GreedyPlace(inst, p, routes, u).Success?
    ensures multiset(Flatten(GreedyPlace(inst, p, routes, u).value)) == multiset(Flatten(routes)) + multiset(UnitIds(u))
  {
    var best := Cheapest(AllOptions(inst, p, routes, u, true, 0));
    if best.Some? {
      var c := best.value;
      BestFits(inst, p, routes, u);
      CommitMultiset(routes[c.truck], u, c.positions);
      UpdateGrows(routes, c.truck, CommitAsWritten(routes[c.truck], u, c.positions), UnitIds(u));
    } else {
      UpdateGrows(routes, 0, routes[0] + UnitIds(u), UnitIds(u));
    }
  }

  /** greedy_insertion's loop over all units, in order. */
  function GreedyPlaceAll(inst: Instance, p: Parameters, routes: seq<seq<nat>>, units: seq<Unit>): (r: Result<seq<seq<nat>>, string>)
    requires DistShaped(inst) && RoutesInRange(inst, routes) && UnitsInRange(inst, units) && p.truckSpeed != 0.0
    ensures r.Success? ==> |r.value| == |routes| && RoutesInRange(inst, r.value)
    decreases |units|
  {
    if |units| == 0 then Success(routes)
    else
      assert UnitsInRange(inst, units[1..]) by {
        assert forall k :: 0 <= k < |units| - 1 ==> units[1..][k] == units[k + 1];
      }
      match GreedyPlace(inst, p, routes, units[0])
      case Failure(e) => Failure(e)
      case Success(next) => GreedyPlaceAll(inst, p, next, units[1..])
  }

  lemma AllIdsEmpty(units: seq<Unit>)
    ensures |AllIds(units)| == 0 <==> |units| == 0
  {
  }

  /** The insertion loop fails only when there are units and no trucks, and
      otherwise adds exactly the ids of the units to the routes. */
  lemma GreedyPlaceAllGrows(inst: Instance, p: Parameters, routes: seq<seq<nat>>, units: seq<Unit>)
    requires DistShaped(inst) && RoutesInRange(inst, routes) && UnitsInRange(inst, units) && p.truckSpeed != 0.0
    ensures var r := GreedyPlaceAll(inst, p, routes, units);
            && (r.Failure? <==> |routes| == 0 && |units| > 0)
            && (r.Success? ==> multiset(Flatten(r.value)) == multiset(Flatten(routes)) + multiset(AllIds(units)))
  {
    GreedyPlaceAllFails(inst, p, routes, units);
    if GreedyPlaceAll(inst, p, routes, units).Success? {
      GreedyPlaceAllAdds(inst, p, routes, units);
    }
  }

  lemma {:induction false} GreedyPlaceAllFails(inst: Instance, p: Parameters, routes: seq<seq<nat>>, units: seq<Unit>)
    requires DistShaped(inst) && RoutesInRange(inst, routes) && UnitsInRange(inst, units) && p.truckSpeed != 0.0
    ensures GreedyPlaceAll(inst, p, routes, units).Failure? <==> |routes| == 0 && |units| > 0
    decreases |units|
  {
    if |units| > 0 {
      assert UnitsInRange(inst, units[1..]) by {
        assert forall k :: 0 <= k < |units| - 1 ==> units[1..][k] == units[k + 1];
      }
      GreedyPlaceFails(inst, p, routes, units[0]);
      var r1 := GreedyPlace(inst, p, routes, units[0]);
      if r1.Success? {
        GreedyPlaceAllFails(inst, p, r1.value, units[1..]);
      }
    }
  }

  lemma {:induction false} GreedyPlaceAllAdds(inst: Instance, p: Parameters, routes: seq<seq<nat>>, units: seq<Unit>)
    requires DistShaped(inst) && RoutesInRange(inst, routes) && UnitsInRange(inst, units) && p.truckSpeed != 0.0
    requires GreedyPlaceAll(inst, p, routes, units).Success?
    ensures multiset(Flatten(GreedyPlaceAll(inst, p, routes, units).value)) == multiset(Flatten(routes)) + multiset(AllIds(units))
    decreases |units|
  {
    if |units| > 0 {
      assert UnitsInRange(inst, units[1..]) by {
        assert forall k :: 0 <= k < |units| - 1 ==> units[1..][k] == units[k + 1];
      }
      var r1 := GreedyPlace(inst, p, routes, units[0]);
      var rest := GreedyPlaceAll(inst, p, r1.value, units[1..]);
      assert GreedyPlaceAll(inst, p, routes, units) == rest;
      GreedyPlaceGrows(inst, p, routes, units[0]);
      GreedyPlaceAllAdds(inst, p, r1.value, units[1..]);
      assert AllIds(units) == UnitIds(units[0]) + AllIds(units[1..]);
      AddsChain(routes, r1.value, rest.value, UnitIds(units[0]), AllIds(units[1..]));
    }
  }

  /** Two growth steps add the concatenation of what each added. */
  lemma AddsChain(a: seq<seq<nat>>, b: seq<seq<nat>>, c: seq<seq<nat>>, x: seq<nat>, y: seq<nat>)
    requires multiset(Flatten(b)) == multiset(Flatten(a)) + multiset(x)
    requires multiset(Flatten(c)) == multiset(Flatten(b)) + multiset(y)
    ensures multiset(Flatten(c)) == multiset(Flatten(a)) + multiset(x + y)
  {
  }

  // ---------------------------------------------------------------------
  // The operators
  // ---------------------------------------------------------------------

  /** What both operators need: a valid instance, routes and removed ids of
      that instance, a truck speed, and drone parameters that the final
      evaluation can use. */
  predicate RepairReady(inst: Instance, p: Parameters, s: Solution, removed: seq<nat>)
  {
    && Valid(inst) && RoutesInRange(inst, s.routes) && RouteInRange(inst, removed) && p.truckSpeed != 0.0
    && (p.numDrones <= 0 || (p.droneCapacity >= 1 && p.droneSpeed != 0.0))
  }

  /** `greedy_insertion`. */
  function GreedyInsertion(inst: Instance, p: Parameters, s: Solution, removed: seq<nat>): (r: Result<Solution, string>)
    requires RepairReady(inst, p, s, removed)
    ensures r.Success? ==>
              && |r.value.routes| == |s.routes| && RoutesInRange(inst, r.value.routes)
              && r.value.makespan == EvaluateSolution(inst, p, s.(routes := r.value.routes)).0
  {
    match GreedyPlaceAll(inst, p, s.routes, Group(inst, removed, true))
    case Failure(e) => Failure(e)
    case Success(routes) => Success(Finish(inst, p, s, routes))
  }

  /** Greedy repair puts back every removed customer exactly once and scores
      the result with evaluate_solution; it fails only when there is
      something to insert and no truck. */
  lemma GreedyInsertionMeaning(inst: Instance, p: Parameters, s: Solution, removed: seq<nat>)
    requires RepairReady(inst, p, s, removed) && NoDuplicates(removed)
    requires forall e1, e2 :: e1 in inst.pdPairs && e2 in inst.pdPairs && e1.1 == e2.1 ==> e1.0 == e2.0
    requires forall k :: 0 <= k < |removed| ==> KindOf(inst, removed[k]) != Other
    ensures var r := GreedyInsertion(inst, p, s, removed);
            && (r.Failure? <==> |s.routes| == 0 && |removed| > 0)
            && (r.Success? ==>
                  && |r.value.routes| == |s.routes|
                  && multiset(Flatten(r.value.routes)) == multiset(Flatten(s.routes)) + multiset(removed)
                  && r.value.makespan == EvaluateSolution(inst, p, s.(routes := r.value.routes)).0)
  {
    ValidPairsWellFormed(inst);
    var units := Group(inst, removed, true);
    GreedyGroupsAllRemoved(inst, removed);
    GreedyPlaceAllGrows(inst, p, s.routes, units);
    AllIdsEmpty(units);
    assert |AllIds(units)| == |removed| by {
      assert |multiset(AllIds(units))| == |multiset(removed)|;
    }
  }

  // ---------------------------------------------------------------------
  // Regret insertion: options
  // ---------------------------------------------------------------------

  /** How many options regret repair looks for before it stops scanning: five
      for a lone customer, three for a pair. */
  function OptionLimit(u: Unit): nat
  {
    if u.Single? then 5 else 3
  }

  /** The check's outcome for each placement of the list, in order. */
  function Tries(inst: Instance, p: Parameters, t: nat, route: seq<nat>, u: Unit, placements: seq<seq<nat>>): (r: seq<Option<Choice>>)
    requires Scannable(inst, p, route, u)
    requires forall ps :: ps in placements ==> Fits(|route|, u, ps)
    ensures |r| == |placements|
    decreases |placements|
  {
    if |placements| == 0 then []
    else
      assert forall ps :: ps in placements[1..] ==> ps in placements;
      [Try(inst, p, t, route, u, placements[0])] + Tries(inst, p, t, route, u, placements[1..])
  }

  /** The recorded options of a list of outcomes. */
  function Somes(os: seq<Option<Choice>>): seq<Choice>
  {
    if |os| == 0 then []
    else (if os[0].Some? then [os[0].value] else []) + Somes(os[1..])
  }

  /** One of regret repair's inner loops over the outcomes of its
      placements, with `found` options already recorded for the unit: it
      stops right after an option brings the count to `limit`. */
  function KeepUntil(os: seq<Option<Choice>>, found: nat, limit: nat): seq<Choice>
  {
    if |os| == 0 then []
    else if os[0].None? then KeepUntil(os[1..], found, limit)
    else if found + 1 >= limit then [os[0].value]
    else [os[0].value] + KeepUntil(os[1..], found + 1, limit)
  }

  /** Python's slice of a list with one more element in front. */
  lemma TakeCons<T>(x: T, s: seq<T>, n: nat)
    requires n >= 1
    ensures Take([x] + s, n) == [x] + Take(s, n - 1)
  {
  }

  /** Stopping early keeps a prefix of the options: as many as are still
      wanted, and at least one once the cap is reached (the source tests the
      cap only after recording an option). */
  lemma {:induction false} KeepUntilPrefix(os: seq<Option<Choice>>, found: nat, limit: nat)
    ensures KeepUntil(os, found, limit) == Take(Somes(os), if found < limit then limit - found else 1)
    decreases |os|
  {
    if |os| > 0 {
      var rest := Somes(os[1..]);
      var n := if found < limit then limit - found else 1;
      if os[0].None? {
        assert Somes(os) == rest;
        KeepUntilPrefix(os[1..], found, limit);
      } else {
        var c := os[0].value;
        assert Somes(os) == [c] + rest;
        TakeCons(c, rest, n);
        if found + 1 < limit {
          KeepUntilPrefix(os[1..], found + 1, limit);
        } else {
          assert Take(rest, 0) == [];
        }
      }
    }
  }

  /** Scanning every placement records the options of the outcomes. */
  lemma {:induction false} ScanAllSomes(inst: Instance, p: Parameters, t: nat, route: seq<nat>, u: Unit, placements: seq<seq<nat>>)
    requires Scannable(inst, p, route, u)
    requires forall ps :: ps in placements ==> Fits(|route|, u, ps)
    ensures ScanAll(inst, p, t, route, u, placements) == Somes(Tries(inst, p, t, route, u, placements))
    decreases |placements|
  {
    if |placements| > 0 {
      assert forall ps :: ps in placements[1..] ==> ps in placements;
      var o := Try(inst, p, t, route, u, placements[0]);
      var tail := Tries(inst, p, t, route, u, placements[1..]);
      ScanAllSomes(inst, p, t, route, u, placements[1..]);
      assert Tries(inst, p, t, route, u, placements) == [o] + tail;
      assert ([o] + tail)[0] == o && ([o] + tail)[1..] == tail;
    }
  }

  /** `Take` of at least one element keeps a list empty exactly when it is. */
  lemma TakeEmpty<T>(s: seq<T>, n: nat)
    requires n >= 1
    ensures Take(s, n) == [] <==> s == []
  {
  }

  /** The outcomes of two lists of placements, one after the other. */
  lemma {:induction false} TriesConcat(inst: Instance, p: Parameters, t: nat, route: seq<nat>, u: Unit, a: seq<seq<nat>>, b: seq<seq<nat>>)
    requires Scannable(inst, p, route, u)
    requires forall ps :: ps in a + b ==> Fits(|route|, u, ps)
    ensures Tries(inst, p, t, route, u, a + b) == Tries(inst, p, t, route, u, a) + Tries(inst, p, t, route, u, b)
    decreases |a|
  {
    assert forall ps :: ps in a ==> ps in a + b;
    assert forall ps :: ps in b ==> ps in a + b;
    if |a| == 0 {
      assert a + b == b;
    } else {
      assert (a + b)[0] == a[0] && (a + b)[1..] == a[1..] + b;
      TriesConcat(inst, p, t, route, u, a[1..], b);
    }
  }

  lemma {:induction false} SomesConcat(a: seq<Option<Choice>>, b: seq<Option<Choice>>)
    ensures Somes(a + b) == Somes(a) + Somes(b)
    decreases |a|
  {
    if |a| == 0 {
      assert a + b == b;
    } else {
      assert (a + b)[0] == a[0] && (a + b)[1..] == a[1..] + b;
      SomesConcat(a[1..], b);
    }
  }

  /** Regret repair's loops over the placement groups of every truck (one
      group per truck for a customer, one per pickup position for a pair),
      given each group's outcomes: the count of recorded options is carried
      from group to group and from truck to truck. */
  function KeepGroups(oss: seq<seq<Option<Choice>>>, found: nat, limit: nat): seq<Choice>
  {
    if |oss| == 0 then []
    else
      var here := KeepUntil(oss[0], found, limit);
      here + KeepGroups(oss[1..], found + |here|, limit)
  }

  /** The grouped scan records only options a full scan records, nothing
      exactly when a full scan records nothing, and everything a full scan
      records when it stays below the cap. */
  lemma {:induction false} KeepGroupsMeaning(oss: seq<seq<Option<Choice>>>, found: nat, limit: nat)
    ensures var r := KeepGroups(oss, found, limit);
            && (forall c :: c in r ==> c in Somes(Flatten(oss)))
            && (r == [] <==> Somes(Flatten(oss)) == [])
            && (found + |r| < limit ==> r == Somes(Flatten(oss)))
    decreases |oss|
  {
    if |oss| > 0 {
      assert Flatten(oss) == oss[0] + Flatten(oss[1..]);
      SomesConcat(oss[0], Flatten(oss[1..]));
      var here := KeepUntil(oss[0], found, limit);
      KeepUntilPrefix(oss[0], found, limit);
      TakeEmpty(Somes(oss[0]), if found < limit then limit - found else 1);
      KeepGroupsMeaning(oss[1..], found + |here|, limit);
    }
  }

  /** The outcomes of each group of placements of a truck. */
  function GroupTries(inst: Instance, p: Parameters, t: nat, route: seq<nat>, u: Unit, groups: seq<seq<seq<nat>>>): (r: seq<seq<Option<Choice>>>)
    requires Scannable(inst, p, route, u)
    requires forall ps :: ps in Flatten(groups) ==> Fits(|route|, u, ps)
    decreases |groups|
  {
    if |groups| == 0 then []
    else
      assert Flatten(groups) == groups[0] + Flatten(groups[1..]);
      [Tries(inst, p, t, route, u, groups[0])] + GroupTries(inst, p, t, route, u, groups[1..])
  }

  lemma {:induction false} GroupTriesFlatten(inst: Instance, p: Parameters, t: nat, route: seq<nat>, u: Unit, groups: seq<seq<seq<nat>>>)
    requires Scannable(inst, p, route, u)
    requires forall ps :: ps in Flatten(groups) ==> Fits(|route|, u, ps)
    ensures Flatten(GroupTries(inst, p, t, route, u, groups)) == Tries(inst, p, t, route, u, Flatten(groups))
    decreases |groups|
  {
    if |groups| > 0 {
      assert Flatten(groups) == groups[0] + Flatten(groups[1..]);
      var r := GroupTries(inst, p, t, route, u, groups);
      assert r[1..] == GroupTries(inst, p, t, route, u, groups[1..]);
      GroupTriesFlatten(inst, p, t, route, u, groups[1..]);
      TriesConcat(inst, p, t, route, u, groups[0], Flatten(groups[1..]));
    }
  }

  /** The outcomes of regret repair's placements for `u`, group by group, in
      trucks `t`, `t + 1`, .... */
  function Outcomes(inst: Instance, p: Parameters, routes: seq<seq<nat>>, u: Unit, t: nat): seq<seq<Option<Choice>>>
    requires DistShaped(inst) && RoutesInRange(inst, routes) && UnitInRange(inst, u) && p.truckSpeed != 0.0
    requires t <= |routes|
    decreases |routes| - t
  {
    if t == |routes| then []
    else
      var groups := PlacementGroups(|routes[t]|, u, false);
      assert Placements(|routes[t]|, u, false) == Flatten(groups);
      GroupTries(inst, p, t, routes[t], u, groups) + Outcomes(inst, p, routes, u, t + 1)
  }

  /** Recording every option of the outcomes gives the full list of options. */
  lemma {:induction false} OutcomesSomes(inst: Instance, p: Parameters, routes: seq<seq<nat>>, u: Unit, t: nat)
    requires DistShaped(inst) && RoutesInRange(inst, routes) && UnitInRange(inst, u) && p.truckSpeed != 0.0
    requires t <= |routes|
    ensures Somes(Flatten(Outcomes(inst, p, routes, u, t))) == AllOptions(inst, p, routes, u, false, t)
    decreases |routes| - t
  {
    if t < |routes| {
      var groups := PlacementGroups(|routes[t]|, u, false);
      var pls := Placements(|routes[t]|, u, false);
      assert pls == Flatten(groups);
      var here := GroupTries(inst, p, t, routes[t], u, groups);
      var rest := Outcomes(inst, p, routes, u, t + 1);
      FlattenConcat(here, rest);
      GroupTriesFlatten(inst, p, t, routes[t], u, groups);
      SomesConcat(Flatten(here), Flatten(rest));
      ScanAllSomes(inst, p, t, routes[t], u, pls);
      OutcomesSomes(inst, p, routes, u, t + 1);
    }
  }

  /** Regret repair's options for a unit: the groups of every truck scanned
      in order, each stopping right after the cap of options is reached. */
  function RegretOptions(inst: Instance, p: Parameters, routes: seq<seq<nat>>, u: Unit): seq<Choice>
    requires DistShaped(inst) && RoutesInRange(inst, routes) && UnitInRange(inst, u) && p.truckSpeed != 0.0
  {
    KeepGroups(Outcomes(inst, p, routes, u, 0), 0, OptionLimit(u))
  }

  /** Regret repair's options are options a full scan records; there are
      none exactly when a full scan records none, and fewer than the cap
      only when they are the full scan. */
  lemma RegretOptionsMeaning(inst: Instance, p: Parameters, routes: seq<seq<nat>>, u: Unit)
    requires DistShaped(inst) && RoutesInRange(inst, routes) && UnitInRange(inst, u) && p.truckSpeed != 0.0
    ensures var r := RegretOptions(inst, p, routes, u);
            var all := AllOptions(inst, p, routes, u, false, 0);
            && (forall c :: c in r ==> c in all)
            && (r == [] <==> all == [])
            && (|r| < OptionLimit(u) ==> r == all)
  {
    KeepGroupsMeaning(Outcomes(inst, p, routes, u, 0), 0, OptionLimit(u));
    OutcomesSomes(inst, p, routes, u, 0);
  }

  /** Each of regret repair's options is a feasible sampled placement with
      the option the check gave for it. */
  lemma RegretOptionSound(inst: Instance, p: Parameters, routes: seq<seq<nat>>, u: Unit, c: Choice)
    requires DistShaped(inst) && RoutesInRange(inst, routes) && UnitInRange(inst, u) && p.truckSpeed != 0.0
    requires c in RegretOptions(inst, p, routes, u)
    ensures Feasible(inst, p, routes, u, false, c.truck, c.positions)
    ensures Try(inst, p, c.truck, routes[c.truck], u, c.positions) == Some(c)
  {
    RegretOptionsMeaning(inst, p, routes, u);
    AllOptionsSound(inst, p, routes, u, false, 0, c);
  }

  /** Regret repair finds no option for a unit exactly when no sampled
      placement passes the check, and, when it finds fewer than the cap,
      it finds every placement that passes. */
  lemma RegretOptionsFound(inst: Instance, p: Parameters, routes: seq<seq<nat>>, u: Unit)
    requires DistShaped(inst) && RoutesInRange(inst, routes) && UnitInRange(inst, u) && p.truckSpeed != 0.0
    ensures var r := RegretOptions(inst, p, routes, u);
            && (r == [] <==> forall t, ps :: !Feasible(inst, p, routes, u, false, t, ps))
            && (|r| < OptionLimit(u) ==>
                  forall t, ps :: Feasible(inst, p, routes, u, false, t, ps) ==> Try(inst, p, t, routes[t], u, ps).value in r)
  {
    RegretOptionsMeaning(inst, p, routes, u);
    var all := AllOptions(inst, p, routes, u, false, 0);
    forall t, ps | Feasible(inst, p, routes, u, false, t, ps)
      ensures Try(inst, p, t, routes[t], u, ps).value in all
    {
      AllOptionsComplete(inst, p, routes, u, false, 0, t, ps);
    }
    if |all| > 0 {
      AllOptionsSound(inst, p, routes, u, false, 0, all[0]);
      assert Feasible(inst, p, routes, u, false, all[0].truck, all[0].positions);
    }
  }

  // ---------------------------------------------------------------------
  // Regret insertion: ranking the units
  // ---------------------------------------------------------------------

  predicate RealLe(a: real, b: real)
  {
    a <= b
  }

  lemma RealLeTotal()
    ensures TotalPreorder(RealLe)
  {
  }

  /** The `costs` list of a unit's options. */
  function Costs(opts: seq<Choice>): (r: seq<real>)
    ensures |r| == |opts| && forall k :: 0 <= k < |r| ==> r[k] == opts[k].cost
  {
    seq(|opts|, k requires 0 <= k < |opts| => opts[k].cost)
  }

  /** `sorted(costs)`. */
  function SortedCosts(opts: seq<Choice>): (r: seq<real>)
    ensures Sorted(r, RealLe) && multiset(r) == multiset(Costs(opts)) && |r| == |opts|
  {
    RealLeTotal();
    SortBy(Costs(opts), RealLe)
  }

  /** The regret-2 value of a unit with two options or more: how much its
      second-cheapest option costs over its cheapest. */
  function Regret(opts: seq<Choice>): real
    requires |opts| >= 2
  {
    var sorted := SortedCosts(opts);
    sorted[1] - sorted[0]
  }

  /** The first element of a sorted permutation is the least of the
      original. */
  lemma SortedLeast(c: seq<real>, s: seq<real>)
    requires Sorted(s, RealLe) && multiset(s) == multiset(c) && |s| == |c| >= 1
    ensures s[0] in c
    ensures forall k :: 0 <= k < |c| ==> s[0] <= c[k]
  {
    assert forall m :: 0 < m < |s| ==> RealLe(s[0], s[m]);
    assert s[0] in multiset(c);
    forall k | 0 <= k < |c| ensures s[0] <= c[k] {
      assert c[k] in multiset(s);
    }
  }

  /** Taking the first element off one permutation and the same value off
      another leaves permutations. */
  lemma TailWithout(c: seq<real>, s: seq<real>, i: nat)
    requires multiset(s) == multiset(c) && i < |c| && |s| >= 1 && c[i] == s[0]
    ensures multiset(s[1..]) == multiset(c[..i] + c[i + 1..])
  {
    var rest := c[..i] + c[i + 1..];
    assert c == c[..i] + [c[i]] + c[i + 1..];
    assert multiset(c) == multiset(rest) + multiset{s[0]};
    assert s == [s[0]] + s[1..];
    assert multiset(s) == multiset(s[1..]) + multiset{s[0]};
    MultisetCancel(multiset(s[1..]), multiset(rest), multiset{s[0]});
  }

  lemma MultisetCancel(a: multiset<real>, b: multiset<real>, e: multiset<real>)
    requires a + e == b + e
    ensures a == b
  {
    forall x ensures a[x] == b[x] {
      assert (a + e)[x] == (b + e)[x];
    }
  }

  /** The second element of a sorted permutation is the least of what
      remains of the original once one occurrence of the first is taken
      away. */
  lemma SortedSecond(c: seq<real>, s: seq<real>, i: nat)
    requires Sorted(s, RealLe) && multiset(s) == multiset(c) && |s| == |c| >= 2
    requires i < |c| && c[i] == s[0]
    ensures exists j :: 0 <= j < |c| && j != i && c[j] == s[1]
    ensures forall k :: 0 <= k < |c| && k != i ==> s[1] <= c[k]
  {
    var rest := c[..i] + c[i + 1..];
    TailWithout(c, s, i);
    assert forall m :: 1 < m < |s| ==> s[1] <= s[m] by {
      assert forall m :: 1 < m < |s| ==> RealLe(s[1], s[m]);
    }
    assert s[1..][0] in multiset(rest);
    var j' :| 0 <= j' < |rest| && rest[j'] == s[1];
    var j := if j' < i then j' else j' + 1;
    assert c[j] == rest[j'];
    forall k | 0 <= k < |c| && k != i ensures s[1] <= c[k] {
      var k' := if k < i then k else k - 1;
      assert rest[k'] == c[k];
      assert c[k] in multiset(s[1..]);
    }
  }

  /** Option `i` is a cheapest option of the unit and option `j` a cheapest
      of the others. */
  predicate LeastTwo(opts: seq<Choice>, i: int, j: int)
  {
    && 0 <= i < |opts| && 0 <= j < |opts| && i != j
    && (forall k :: 0 <= k < |opts| ==> opts[i].cost <= opts[k].cost)
    && (forall k :: 0 <= k < |opts| && k != i ==> opts[j].cost <= opts[k].cost)
  }

  /** The regret is the gap between a cheapest option and the cheapest of
      the others. */
  lemma RegretMeaning(opts: seq<Choice>)
    requires |opts| >= 2
    ensures exists i, j :: LeastTwo(opts, i, j) && Regret(opts) == opts[j].cost - opts[i].cost
  {
    var c, s := Costs(opts), SortedCosts(opts);
    SortedLeast(c, s);
    var i :| 0 <= i < |c| && c[i] == s[0];
    SortedSecond(c, s, i);
    var j :| 0 <= j < |c| && j != i && c[j] == s[1];
    assert opts[i].cost == s[0] && opts[j].cost == s[1];
    assert Regret(opts) == s[1] - s[0];
    assert forall k :: 0 <= k < |opts| ==> opts[i].cost <= opts[k].cost by {
      forall k | 0 <= k < |opts| ensures opts[i].cost <= opts[k].cost {
        assert c[k] == opts[k].cost;
      }
    }
    assert forall k :: 0 <= k < |opts| && k != i ==> opts[j].cost <= opts[k].cost by {
      forall k | 0 <= k < |opts| && k != i ensures opts[j].cost <= opts[k].cost {
        assert c[k] == opts[k].cost;
      }
    }
    assert LeastTwo(opts, i, j);
  }

  /** A regret is never negative. */
  lemma RegretNonNegative(opts: seq<Choice>)
    requires |opts| >= 2
    ensures Regret(opts) >= 0.0
  {
    var c, s := Costs(opts), SortedCosts(opts);
    SortedLeast(c, s);
    var i :| 0 <= i < |c| && c[i] == s[0];
    SortedSecond(c, s, i);
    var j :| 0 <= j < |c| && j != i && c[j] == s[1];
    assert s[0] <= c[j];
  }

  /** Python's `list.index`: the first position holding `x`. */
  function IndexOf(s: seq<real>, x: real): (k: nat)
    requires x in s
    ensures k < |s| && s[k] == x && forall j :: 0 <= j < k ==> s[j] != x
  {
    if s[0] == x then 0 else 1 + IndexOf(s[1..], x)
  }

  /** `positions[costs.index(costs_sorted[0])]`: the option at the first
      position of the least cost. */
  function RegretChoice(opts: seq<Choice>): Choice
    requires |opts| >= 2
  {
    var sorted := SortedCosts(opts);
    assert sorted[0] in multiset(Costs(opts));
    opts[IndexOf(Costs(opts), sorted[0])]
  }

  /** The option regret repair takes for a unit of several options is the
      one greedy repair would: the first of the cheapest. */
  lemma RegretChoiceCheapest(opts: seq<Choice>)
    requires |opts| >= 2
    ensures Cheapest(opts) == Some(RegretChoice(opts))
  {
    var c, s := Costs(opts), SortedCosts(opts);
    SortedLeast(c, s);
    var k := IndexOf(c, s[0]);
    CheapestMeaning(opts);
    var k' :| && 0 <= k' < |opts| && Cheapest(opts) == Some(opts[k'])
              && (forall j :: 0 <= j < |opts| ==> opts[k'].cost <= opts[j].cost)
              && (forall j :: 0 <= j < k' ==> opts[k'].cost < opts[j].cost);
    assert opts[k'].cost == s[0];
  }

  /** A unit and the options regret repair found for it. */
  datatype Scored = Scored(unit: Unit, options: seq<Choice>)

  /** The unit regret repair inserts and the option it inserts it at. */
  datatype Pick = Pick(unit: Unit, choice: Choice)

  /** What a unit with options is ranked by: its regret when it has two
      options or more, and zero when it has one. */
  function Score(opts: seq<Choice>): real
    requires |opts| >= 1
  {
    if |opts| >= 2 then Regret(opts) else 0.0
  }

  /** The option a unit with options would be inserted at. */
  function Preferred(opts: seq<Choice>): (r: Choice)
    requires |opts| >= 1
    ensures r in opts
  {
    if |opts| >= 2 then
      var sorted := SortedCosts(opts);
      assert sorted[0] in multiset(Costs(opts));
      RegretChoice(opts)
    else opts[0]
  }

  /** A unit is always inserted at its first cheapest option. */
  lemma PreferredCheapest(opts: seq<Choice>)
    requires |opts| >= 1
    ensures Cheapest(opts) == Some(Preferred(opts))
  {
    if |opts| >= 2 {
      RegretChoiceCheapest(opts);
    } else {
      assert Cheapest(opts) == BestFrom(opts[1..], Some(opts[0]));
    }
  }

  /** A unit's score is never negative. */
  lemma ScoreNonNegative(opts: seq<Choice>)
    requires |opts| >= 1
    ensures Score(opts) >= 0.0
  {
    if |opts| >= 2 {
      RegretNonNegative(opts);
    }
  }

  /** The selection loop of regret repair over the evaluated units, with
      the largest regret so far (`None` standing for minus infinity) and
      the pick so far: a unit of several options is taken when its regret
      beats the largest so far, a unit of one option only while the
      largest so far is negative. */
  function SelectFrom(scored: seq<Scored>, maxRegret: Option<real>, best: Option<Pick>): (r: Option<Pick>)
    decreases |scored|
  {
    if |scored| == 0 then best
    else
      var opts := scored[0].options;
      var rest := scored[1..];
      if |opts| >= 2 && (maxRegret.None? || Regret(opts) > maxRegret.value) then
        SelectFrom(rest, Some(Regret(opts)), Some(Pick(scored[0].unit, RegretChoice(opts))))
      else if |opts| == 1 && (maxRegret.None? || maxRegret.value < 0.0) then
        SelectFrom(rest, Some(0.0), Some(Pick(scored[0].unit, opts[0])))
      else
        SelectFrom(rest, maxRegret, best)
  }

  /** No unit with options scores above `m`. */
  predicate Quiet(scored: seq<Scored>, m: Option<real>)
  {
    forall j :: 0 <= j < |scored| && |scored[j].options| >= 1 ==>
      m.Some? && Score(scored[j].options) <= m.value
  }

  /** `r` picks unit `k` at its preferred option; `k` scores above `m`,
      no unit scores above it, and every unit before it scores below it. */
  predicate Selected(scored: seq<Scored>, m: Option<real>, k: int, r: Option<Pick>)
  {
    && 0 <= k < |scored| && |scored[k].options| >= 1
    && r == Some(Pick(scored[k].unit, Preferred(scored[k].options)))
    && (m.Some? ==> Score(scored[k].options) > m.value)
    && (forall j :: 0 <= j < |scored| && |scored[j].options| >= 1 ==> Score(scored[j].options) <= Score(scored[k].options))
    && (forall j :: 0 <= j < k && |scored[j].options| >= 1 ==> Score(scored[j].options) < Score(scored[k].options))
  }

  /** Whether the selection loop takes the first unit, given the largest
      regret so far. */
  predicate Taken(opts: seq<Choice>, m: Option<real>)
  {
    |opts| >= 1 && (m.None? || Score(opts) > m.value)
  }

  /** One round of the selection loop: a unit is taken exactly when it
      scores above the largest regret so far. */
  lemma SelectFromStep(scored: seq<Scored>, m: Option<real>, b: Option<Pick>)
    requires |scored| > 0 && (m.Some? ==> m.value >= 0.0)
    ensures var opts := scored[0].options;
            SelectFrom(scored, m, b)
            == if Taken(opts, m) then SelectFrom(scored[1..], Some(Score(opts)), Some(Pick(scored[0].unit, Preferred(opts))))
               else SelectFrom(scored[1..], m, b)
  {
  }

  /** A taken first unit that no later unit beats is the pick. */
  lemma SelectFirst(scored: seq<Scored>, m: Option<real>, r: Option<Pick>)
    requires |scored| > 0 && Taken(scored[0].options, m)
    requires r == Some(Pick(scored[0].unit, Preferred(scored[0].options)))
    requires Quiet(scored[1..], Some(Score(scored[0].options)))
    ensures Selected(scored, m, 0, r)
  {
    assert forall j :: 1 <= j < |scored| ==> scored[j] == scored[1..][j - 1];
  }

  /** A first unit that is not taken scores no more than the largest so far. */
  lemma SelectSkipQuiet(scored: seq<Scored>, m: Option<real>)
    requires |scored| > 0 && !Taken(scored[0].options, m) && Quiet(scored[1..], m)
    ensures Quiet(scored, m)
  {
    assert forall j :: 1 <= j < |scored| ==> scored[j] == scored[1..][j - 1];
  }

  /** A pick among the later units stays the pick with the first unit in
      front, whether or not the first unit was taken. */
  lemma SelectLater(scored: seq<Scored>, m: Option<real>, k: int, r: Option<Pick>)
    requires |scored| > 0 && (m.Some? ==> m.value >= 0.0)
    requires var opts := scored[0].options;
             Selected(scored[1..], if Taken(opts, m) then Some(Score(opts)) else m, k, r)
    ensures Selected(scored, m, k + 1, r)
  {
    var opts := scored[0].options;
    var m' := if Taken(opts, m) then Some(Score(opts)) else m;
    var best := scored[k + 1].options;
    assert scored[1..][k] == scored[k + 1];
    assert m' == m || Taken(opts, m);
    assert m.Some? ==> Score(best) > m.value;
    assert |opts| >= 1 ==> Score(opts) < Score(best);
    assert forall j :: 1 <= j < |scored| ==> scored[j] == scored[1..][j - 1];
  }

  /** The selection loop keeps the pick so far when no unit scores above
      the largest regret so far, and otherwise picks the first unit of the
      largest score. */
  lemma {:induction false} SelectFromMeaning(scored: seq<Scored>, m: Option<real>, b: Option<Pick>)
    requires m.Some? ==> m.value >= 0.0
    ensures var r := SelectFrom(scored, m, b);
            || (r == b && Quiet(scored, m))
            || exists k :: Selected(scored, m, k, r)
    decreases |scored|
  {
    if |scored| > 0 {
      var opts := scored[0].options;
      var taken := Taken(opts, m);
      if |opts| >= 1 {
        ScoreNonNegative(opts);
      }
      var m' := if taken then Some(Score(opts)) else m;
      var b' := if taken then Some(Pick(scored[0].unit, Preferred(opts))) else b;
      SelectFromStep(scored, m, b);
      SelectFromMeaning(scored[1..], m', b');
      var r := SelectFrom(scored[1..], m', b');
      if r == b' && Quiet(scored[1..], m') {
        if taken {
          SelectFirst(scored, m, r);
        } else {
          SelectSkipQuiet(scored, m);
        }
      } else {
        var k :| Selected(scored[1..], m', k, r);
        SelectLater(scored, m, k, r);
      }
    }
  }

  /** Regret repair picks nothing exactly when no evaluated unit has an
      option, and otherwise the first unit of the largest score at its
      preferred option. */
  lemma SelectMeaning(scored: seq<Scored>)
    ensures SelectFrom(scored, None, None).None? <==> forall j :: 0 <= j < |scored| ==> |scored[j].options| == 0
    ensures SelectFrom(scored, None, None).Some? ==> exists k :: Selected(scored, None, k, SelectFrom(scored, None, None))
  {
    SelectFromMeaning(scored, None, None);
  }

  /** The earliest ready time of a customer in range; zero for an id out of
      range, which a unit in range never holds. */
  function ReadyOf(inst: Instance, id: nat): real
  {
    if 1 <= id <= |inst.customers| then inst.customers[id - 1].readyTime else 0.0
  }

  /** The sort key of `units_to_evaluate`: the earliest ready time of the
      unit's customers. */
  function EarliestReady(inst: Instance, u: Unit): (r: real)
    ensures forall k :: 0 <= k < |UnitIds(u)| ==> r <= ReadyOf(inst, UnitIds(u)[k])
    ensures exists k :: 0 <= k < |UnitIds(u)| && r == ReadyOf(inst, UnitIds(u)[k])
  {
    match u
    case Single(c) =>
      assert UnitIds(u)[0] == c;
      ReadyOf(inst, c)
    case Pair(a, b) =>
      assert UnitIds(u)[0] == a && UnitIds(u)[1] == b;
      if ReadyOf(inst, b) < ReadyOf(inst, a) then ReadyOf(inst, b) else ReadyOf(inst, a)
  }

  function ReadyBefore(inst: Instance): (Unit, Unit) -> bool
  {
    (a: Unit, b: Unit) => EarliestReady(inst, a) <= EarliestReady(inst, b)
  }

  lemma ReadyBeforeTotal(inst: Instance)
    ensures TotalPreorder(ReadyBefore(inst))
  {
  }

  /** How many units regret repair scores in one round at most. */
  const EvaluatedLimit: nat := 20

  /** `units_to_evaluate`: all units when there are at most twenty, and
      otherwise the twenty of earliest ready time, by a stable sort. */
  function Evaluated(inst: Instance, toInsert: seq<Unit>): (r: seq<Unit>)
    ensures multiset(r) <= multiset(toInsert)
    ensures |r| == Min(|toInsert|, EvaluatedLimit)
    ensures |toInsert| <= EvaluatedLimit ==> r == toInsert
    ensures ChosenFirst(r, multiset(toInsert), ReadyBefore(inst))
    ensures |toInsert| > EvaluatedLimit ==> Sorted(r, ReadyBefore(inst))
    ensures forall u :: Equivalents(r, u, ReadyBefore(inst)) <= Equivalents(toInsert, u, ReadyBefore(inst))
  {
    if |toInsert| > EvaluatedLimit then
      ReadyBeforeTotal(inst);
      var sorted := SortBy(toInsert, ReadyBefore(inst));
      PrefixDominates(sorted, EvaluatedLimit, ReadyBefore(inst));
      PrefixEquivalents(sorted, EvaluatedLimit, ReadyBefore(inst));
      sorted[..EvaluatedLimit]
    else
      toInsert
  }

  // ---------------------------------------------------------------------
  // Regret insertion: the loop
  // ---------------------------------------------------------------------

  /** A sublist of units in range is in range. */
  lemma SubUnitsInRange(inst: Instance, a: seq<Unit>, b: seq<Unit>)
    requires multiset(a) <= multiset(b) && UnitsInRange(inst, b)
    ensures UnitsInRange(inst, a)
  {
    forall k | 0 <= k < |a| ensures UnitInRange(inst, a[k]) {
      assert a[k] in multiset(b);
    }
  }

  /** Each evaluated unit with the options regret repair finds for it. */
  function ScoreUnits(inst: Instance, p: Parameters, routes: seq<seq<nat>>, units: seq<Unit>): (r: seq<Scored>)
    requires DistShaped(inst) && RoutesInRange(inst, routes) && UnitsInRange(inst, units) && p.truckSpeed != 0.0
    ensures |r| == |units|
    ensures forall k :: 0 <= k < |r| ==> r[k] == Scored(units[k], RegretOptions(inst, p, routes, units[k]))
  {
    seq(|units|, k requires 0 <= k < |units| => Scored(units[k], RegretOptions(inst, p, routes, units[k])))
  }

  /** The pick of one round of regret repair. */
  function RegretPick(inst: Instance, p: Parameters, routes: seq<seq<nat>>, toInsert: seq<Unit>): Option<Pick>
    requires DistShaped(inst) && RoutesInRange(inst, routes) && UnitsInRange(inst, toInsert) && p.truckSpeed != 0.0
  {
    var ev := Evaluated(inst, toInsert);
    SubUnitsInRange(inst, ev, toInsert);
    SelectFrom(ScoreUnits(inst, p, routes, ev), None, None)
  }

  /** A pick of unit `pk.unit`, one of the units left, at one of the
      options regret repair found for it. */
  ghost predicate PickFrom(inst: Instance, p: Parameters, routes: seq<seq<nat>>, toInsert: seq<Unit>, pk: Pick)
    requires DistShaped(inst) && RoutesInRange(inst, routes) && p.truckSpeed != 0.0
  {
    && pk.unit in toInsert && UnitInRange(inst, pk.unit)
    && pk.choice in RegretOptions(inst, p, routes, pk.unit)
  }

  /** The round's pick is one of the evaluated units at one of its options. */
  lemma RegretPickFrom(inst: Instance, p: Parameters, routes: seq<seq<nat>>, toInsert: seq<Unit>)
    requires DistShaped(inst) && RoutesInRange(inst, routes) && UnitsInRange(inst, toInsert) && p.truckSpeed != 0.0
    ensures var pick := RegretPick(inst, p, routes, toInsert);
            pick.Some? ==> PickFrom(inst, p, routes, toInsert, pick.value)
  {
    var ev := Evaluated(inst, toInsert);
    SubUnitsInRange(inst, ev, toInsert);
    var scored := ScoreUnits(inst, p, routes, ev);
    SelectMeaning(scored);
    var pick := RegretPick(inst, p, routes, toInsert);
    if pick.Some? {
      var k :| Selected(scored, None, k, pick);
      assert ev[k] in multiset(toInsert);
    }
  }

  /** Commits a round's pick, or falls back when there is none. The picked
      unit goes into the route of its option by the source's two inserts
      (`CommitAsWritten`). With no pick the first unit is appended to the
      first route: that fails when there is no route, and for a pair, whose
      one fallback position cannot be unpacked into two. */
  function CommitPick(inst: Instance, p: Parameters, routes: seq<seq<nat>>, toInsert: seq<Unit>, pick: Option<Pick>): (r: Result<(seq<seq<nat>>, seq<Unit>), string>)
    requires DistShaped(inst) && RoutesInRange(inst, routes) && UnitsInRange(inst, toInsert) && p.truckSpeed != 0.0
    requires |toInsert| > 0 && (pick.Some? ==> PickFrom(inst, p, routes, toInsert, pick.value))
    ensures r.Success? ==>
              && |r.value.0| == |routes| && RoutesInRange(inst, r.value.0)
              && |r.value.1| == |toInsert| - 1 && multiset(r.value.1) <= multiset(toInsert)
  {
    if pick.Some? then
      var u, c := pick.value.unit, pick.value.choice;
      RegretOptionSound(inst, p, routes, u, c);
      CommitInRange(inst, routes[c.truck], u, c.positions);
      Success((routes[c.truck := CommitAsWritten(routes[c.truck], u, c.positions)], RemoveFirst(toInsert, u)))
    else
      Fallback(inst, routes, toInsert)
  }

  /** The same commit as evidently intended: the picked unit goes into the
      route of its option as the candidate route that was checked and
      costed. */
  function CommitPickIntended(inst: Instance, p: Parameters, routes: seq<seq<nat>>, toInsert: seq<Unit>, pick: Option<Pick>): (r: Result<(seq<seq<nat>>, seq<Unit>), string>)
    requires DistShaped(inst) && RoutesInRange(inst, routes) && UnitsInRange(inst, toInsert) && p.truckSpeed != 0.0
    requires |toInsert| > 0 && (pick.Some? ==> PickFrom(inst, p, routes, toInsert, pick.value))
    ensures r.Success? ==>
              && |r.value.0| == |routes| && RoutesInRange(inst, r.value.0)
              && |r.value.1| == |toInsert| - 1 && multiset(r.value.1) <= multiset(toInsert)
  {
    if pick.Some? then
      var u, c := pick.value.unit, pick.value.choice;
      RegretOptionSound(inst, p, routes, u, c);
      CandidateInRange(inst, routes[c.truck], u, c.positions);
      Success((routes[c.truck := Candidate(routes[c.truck], u, c.positions)], RemoveFirst(toInsert, u)))
    else
      Fallback(inst, routes, toInsert)
  }

  /** The round without a pick: the first unit at `[len(route)]` of the
      first route. */
  function Fallback(inst: Instance, routes: seq<seq<nat>>, toInsert: seq<Unit>): (r: Result<(seq<seq<nat>>, seq<Unit>), string>)
    requires RoutesInRange(inst, routes) && UnitsInRange(inst, toInsert) && |toInsert| > 0
    ensures r.Success? ==>
              && |r.value.0| == |routes| && RoutesInRange(inst, r.value.0)
              && |r.value.1| == |toInsert| - 1 && multiset(r.value.1) <= multiset(toInsert)
  {
    if |routes| == 0 then
      Failure("list index out of range")
    else
      match toInsert[0]
      case Pair(_, _) => Failure("not enough values to unpack (expected 2, got 1)")
      case Single(id) =>
        assert UnitInRange(inst, toInsert[0]) && UnitIds(toInsert[0]) == [id];
        assert toInsert == [toInsert[0]] + toInsert[1..];
        Success((routes[0 := routes[0] + [id]], toInsert[1..]))
  }

  /** With a pick, the intended commit puts in exactly the candidate route
      that passed the check, and takes the unit off the list. */
  lemma CommitPickIntendedMeaning(inst: Instance, p: Parameters, routes: seq<seq<nat>>, toInsert: seq<Unit>, pick: Option<Pick>)
    requires DistShaped(inst) && RoutesInRange(inst, routes) && UnitsInRange(inst, toInsert) && p.truckSpeed != 0.0
    requires |toInsert| > 0 && pick.Some? && PickFrom(inst, p, routes, toInsert, pick.value)
    ensures var u, c := pick.value.unit, pick.value.choice;
            var r := CommitPickIntended(inst, p, routes, toInsert, pick);
            && 0 <= c.truck < |routes| && Fits(|routes[c.truck]|, u, c.positions)
            && r == Success((routes[c.truck := Candidate(routes[c.truck], u, c.positions)], RemoveFirst(toInsert, u)))
            && CheckRoute(inst, p, r.value.0[c.truck])
  {
    var u, c := pick.value.unit, pick.value.choice;
    RegretOptionSound(inst, p, routes, u, c);
    TryMeaning(inst, p, c.truck, routes[c.truck], u, c.positions);
  }

  /** For a lone customer the commit as written and as intended agree. */
  lemma CommitPickSingle(inst: Instance, p: Parameters, routes: seq<seq<nat>>, toInsert: seq<Unit>, pick: Option<Pick>)
    requires DistShaped(inst) && RoutesInRange(inst, routes) && UnitsInRange(inst, toInsert) && p.truckSpeed != 0.0
    requires |toInsert| > 0 && (pick.Some? ==> PickFrom(inst, p, routes, toInsert, pick.value) && pick.value.unit.Single?)
    ensures CommitPick(inst, p, routes, toInsert, pick) == CommitPickIntended(inst, p, routes, toInsert, pick)
  {
    if pick.Some? {
      var u, c := pick.value.unit, pick.value.choice;
      RegretOptionSound(inst, p, routes, u, c);
      SingleCommitIsCandidate(routes[c.truck], u.id, c.positions);
    }
  }

  /** One round of regret_insertion's loop, giving the new routes and the
      units left. */
  function RegretStep(inst: Instance, p: Parameters, routes: seq<seq<nat>>, toInsert: seq<Unit>): (r: Result<(seq<seq<nat>>, seq<Unit>), string>)
    requires DistShaped(inst) && RoutesInRange(inst, routes) && UnitsInRange(inst, toInsert) && p.truckSpeed != 0.0
    requires |toInsert| > 0
    ensures r.Success? ==>
              && |r.value.0| == |routes| && RoutesInRange(inst, r.value.0)
              && |r.value.1| == |toInsert| - 1 && multiset(r.value.1) <= multiset(toInsert)
  {
    RegretPickFrom(inst, p, routes, toInsert);
    CommitPick(inst, p, routes, toInsert, RegretPick(inst, p, routes, toInsert))
  }

  /** Regret repair picks a unit exactly when some evaluated unit has a
      feasible sampled placement; the pick is the first evaluated unit of
      the largest regret, at its cheapest option, and that option is a
      feasible placement. */
  lemma RegretPickMeaning(inst: Instance, p: Parameters, routes: seq<seq<nat>>, toInsert: seq<Unit>)
    requires DistShaped(inst) && RoutesInRange(inst, routes) && UnitsInRange(inst, toInsert) && p.truckSpeed != 0.0
    ensures var ev := Evaluated(inst, toInsert);
            var pick := RegretPick(inst, p, routes, toInsert);
            && UnitsInRange(inst, ev)
            && (pick.None? <==> forall k, t, ps :: 0 <= k < |ev| ==> !Feasible(inst, p, routes, ev[k], false, t, ps))
            && (pick.Some? ==>
                  && (exists k :: Selected(ScoreUnits(inst, p, routes, ev), None, k, pick))
                  && PickFrom(inst, p, routes, toInsert, pick.value)
                  && Cheapest(RegretOptions(inst, p, routes, pick.value.unit)) == Some(pick.value.choice)
                  && Feasible(inst, p, routes, pick.value.unit, false, pick.value.choice.truck, pick.value.choice.positions))
  {
    var ev := Evaluated(inst, toInsert);
    SubUnitsInRange(inst, ev, toInsert);
    var scored := ScoreUnits(inst, p, routes, ev);
    SelectMeaning(scored);
    var pick := RegretPick(inst, p, routes, toInsert);
    forall k | 0 <= k < |ev|
      ensures scored[k].options == [] <==> forall t, ps :: !Feasible(inst, p, routes, ev[k], false, t, ps)
    {
      RegretOptionsFound(inst, p, routes, ev[k]);
    }
    RegretPickFrom(inst, p, routes, toInsert);
    if pick.Some? {
      var k :| Selected(scored, None, k, pick);
      PreferredCheapest(scored[k].options);
      RegretOptionSound(inst, p, routes, pick.value.unit, pick.value.choice);
    }
  }

  /** A round applies the source's two inserts for the picked option and
      drops that unit; without a pick it fails exactly when there is no
      route or the first unit is a pair. */
  lemma RegretStepMeaning(inst: Instance, p: Parameters, routes: seq<seq<nat>>, toInsert: seq<Unit>)
    requires DistShaped(inst) && RoutesInRange(inst, routes) && UnitsInRange(inst, toInsert) && p.truckSpeed != 0.0
    requires |toInsert| > 0
    ensures var pick := RegretPick(inst, p, routes, toInsert);
            var r := RegretStep(inst, p, routes, toInsert);
            && (pick.Some? ==>
                  && pick.value.unit in toInsert
                  && var u, c := pick.value.unit, pick.value.choice;
                     && 0 <= c.truck < |routes| && Fits(|routes[c.truck]|, u, c.positions)
                     && r == Success((routes[c.truck := CommitAsWritten(routes[c.truck], u, c.positions)], RemoveFirst(toInsert, u))))
            && (pick.None? ==> (r.Failure? <==> |routes| == 0 || toInsert[0].Pair?))
            && (r.Failure? ==> r.error == if |routes| == 0 then "list index out of range" else "not enough values to unpack (expected 2, got 1)")
  {
    var pick := RegretPick(inst, p, routes, toInsert);
    RegretPickFrom(inst, p, routes, toInsert);
    if pick.Some? {
      RegretOptionSound(inst, p, routes, pick.value.unit, pick.value.choice);
    }
  }

  /** Removing one unit from a list removes exactly its ids. */
  lemma {:induction false} AllIdsRemoveFirst(s: seq<Unit>, x: Unit)
    requires x in s
    ensures multiset(AllIds(s)) == multiset(UnitIds(x)) + multiset(AllIds(RemoveFirst(s, x)))
  {
    assert s == [s[0]] + s[1..];
    AllIdsCons(s[0], s[1..]);
    if s[0] != x {
      var rest := RemoveFirst(s[1..], x);
      assert RemoveFirst(s, x) == [s[0]] + rest;
      AllIdsRemoveFirst(s[1..], x);
      AllIdsCons(s[0], rest);
      SwapAdd(multiset(UnitIds(s[0])), multiset(UnitIds(x)), multiset(AllIds(rest)));
    }
  }

  lemma SwapAdd(a: multiset<nat>, b: multiset<nat>, c: multiset<nat>)
    ensures a + (b + c) == b + (a + c)
  {
  }

  /** Committing a pick, or the fallback, moves exactly the ids of one unit
      from the units left into the routes. */
  lemma CommitPickGrows(inst: Instance, p: Parameters, routes: seq<seq<nat>>, toInsert: seq<Unit>, pick: Option<Pick>)
    requires DistShaped(inst) && RoutesInRange(inst, routes) && UnitsInRange(inst, toInsert) && p.truckSpeed != 0.0
    requires |toInsert| > 0 && (pick.Some? ==> PickFrom(inst, p, routes, toInsert, pick.value))
    requires CommitPick(inst, p, routes, toInsert, pick).Success?
    ensures var r := CommitPick(inst, p, routes, toInsert, pick).value;
            multiset(Flatten(r.0)) + multiset(AllIds(r.1)) == multiset(Flatten(routes)) + multiset(AllIds(toInsert))
  {
    var r := CommitPick(inst, p, routes, toInsert, pick).value;
    if pick.Some? {
      var u, c := pick.value.unit, pick.value.choice;
      RegretOptionSound(inst, p, routes, u, c);
      assert r == (routes[c.truck := CommitAsWritten(routes[c.truck], u, c.positions)], RemoveFirst(toInsert, u));
      InsertGrows(routes, toInsert, u, c.truck, c.positions);
    } else {
      assert r == (routes[0 := routes[0] + [toInsert[0].id]], toInsert[1..]);
      AppendGrows(routes, toInsert);
    }
  }

  /** Inserting a unit moves its ids out of the list. */
  lemma InsertGrows(routes: seq<seq<nat>>, toInsert: seq<Unit>, u: Unit, t: nat, ps: seq<nat>)
    requires u in toInsert && t < |routes| && |ps| == |UnitIds(u)|
    ensures multiset(Flatten(routes[t := CommitAsWritten(routes[t], u, ps)])) + multiset(AllIds(RemoveFirst(toInsert, u)))
            == multiset(Flatten(routes)) + multiset(AllIds(toInsert))
  {
    CommitMultiset(routes[t], u, ps);
    UpdateGrows(routes, t, CommitAsWritten(routes[t], u, ps), UnitIds(u));
    AllIdsRemoveFirst(toInsert, u);
  }

  /** Appending a first single to the first route moves its id out of the list. */
  lemma AppendGrows(routes: seq<seq<nat>>, toInsert: seq<Unit>)
    requires |routes| > 0 && |toInsert| > 0 && toInsert[0].Single?
    ensures multiset(Flatten(routes[0 := routes[0] + [toInsert[0].id]])) + multiset(AllIds(toInsert[1..]))
            == multiset(Flatten(routes)) + multiset(AllIds(toInsert))
  {
    var id := toInsert[0].id;
    UpdateGrows(routes, 0, routes[0] + [id], [id]);
    assert toInsert == [toInsert[0]] + toInsert[1..];
    AllIdsCons(toInsert[0], toInsert[1..]);
  }

  /** A round of regret repair moves exactly the ids of one unit from the
      units left into the routes. */
  lemma RegretStepGrows(inst: Instance, p: Parameters, routes: seq<seq<nat>>, toInsert: seq<Unit>)
    requires DistShaped(inst) && RoutesInRange(inst, routes) && UnitsInRange(inst, toInsert) && p.truckSpeed != 0.0
    requires |toInsert| > 0 && RegretStep(inst, p, routes, toInsert).Success?
    ensures var r := RegretStep(inst, p, routes, toInsert).value;
            multiset(Flatten(r.0)) + multiset(AllIds(r.1)) == multiset(Flatten(routes)) + multiset(AllIds(toInsert))
  {
    RegretPickFrom(inst, p, routes, toInsert);
    CommitPickGrows(inst, p, routes, toInsert, RegretPick(inst, p, routes, toInsert));
  }

  /** regret_insertion's loop: rounds until no unit is left. */
  function RegretLoop(inst: Instance, p: Parameters, routes: seq<seq<nat>>, toInsert: seq<Unit>): (r: Result<seq<seq<nat>>, string>)
    requires DistShaped(inst) && RoutesInRange(inst, routes) && UnitsInRange(inst, toInsert) && p.truckSpeed != 0.0
    ensures r.Success? ==> |r.value| == |routes| && RoutesInRange(inst, r.value)
    decreases |toInsert|
  {
    if |toInsert| == 0 then Success(routes)
    else
      match RegretStep(inst, p, routes, toInsert)
      case Failure(e) => Failure(e)
      case Success(next) =>
        SubUnitsInRange(inst, next.1, toInsert);
        RegretLoop(inst, p, next.0, next.1)
  }

  /** The loop adds exactly the ids of the units to the routes, and fails
      when there are units and no route. */
  lemma {:induction false} RegretLoopGrows(inst: Instance, p: Parameters, routes: seq<seq<nat>>, toInsert: seq<Unit>)
    requires DistShaped(inst) && RoutesInRange(inst, routes) && UnitsInRange(inst, toInsert) && p.truckSpeed != 0.0
    ensures var r := RegretLoop(inst, p, routes, toInsert);
            && (|routes| == 0 && |toInsert| > 0 ==> r.Failure?)
            && (r.Failure? && |routes| > 0 ==> r.error == "not enough values to unpack (expected 2, got 1)")
            && (r.Success? ==> multiset(Flatten(r.value)) == multiset(Flatten(routes)) + multiset(AllIds(toInsert)))
    decreases |toInsert|
  {
    if |toInsert| > 0 {
      var step := RegretStep(inst, p, routes, toInsert);
      RegretStepMeaning(inst, p, routes, toInsert);
      if |routes| == 0 {
        RegretPickFrom(inst, p, routes, toInsert);
      } else if step.Success? {
        var next := step.value;
        SubUnitsInRange(inst, next.1, toInsert);
        RegretStepGrows(inst, p, routes, toInsert);
        RegretLoopGrows(inst, p, next.0, next.1);
      }
    }
  }

  /** `regret_insertion`: group the removed customers, leaving out lone
      dropoffs, run the rounds and score the result with evaluate_solution. */
  function RegretInsertion(inst: Instance, p: Parameters, s: Solution, removed: seq<nat>): (r: Result<Solution, string>)
    requires RepairReady(inst, p, s, removed)
    ensures r.Success? ==>
              && |r.value.routes| == |s.routes| && RoutesInRange(inst, r.value.routes)
              && r.value.makespan == EvaluateSolution(inst, p, s.(routes := r.value.routes)).0
  {
    match RegretLoop(inst, p, s.routes, Group(inst, removed, false))
    case Failure(e) => Failure(e)
    case Success(routes) => Success(Finish(inst, p, s, routes))
  }

  /** Regret repair puts back each removed customer it keeps exactly once
      and nothing else, and scores the result with evaluate_solution. It
      fails when there is something to insert and no truck; with trucks it
      fails only when a round finds no option and its first unit is a pair. */
  lemma RegretInsertionMeaning(inst: Instance, p: Parameters, s: Solution, removed: seq<nat>)
    requires RepairReady(inst, p, s, removed) && NoDuplicates(removed)
    requires forall e1, e2 :: e1 in inst.pdPairs && e2 in inst.pdPairs && e1.1 == e2.1 ==> e1.0 == e2.0
    ensures var r := RegretInsertion(inst, p, s, removed);
            && (|s.routes| == 0 && (exists x :: x in removed && Kept(inst, removed, x, false)) ==> r.Failure?)
            && (r.Failure? && |s.routes| > 0 ==> r.error == "not enough values to unpack (expected 2, got 1)")
            && (r.Success? ==>
                  && |r.value.routes| == |s.routes|
                  && r.value.makespan == EvaluateSolution(inst, p, s.(routes := r.value.routes)).0
                  && forall x :: multiset(Flatten(r.value.routes))[x]
                                 == multiset(Flatten(s.routes))[x] + if x in removed && Kept(inst, removed, x, false) then 1 else 0)
  {
    ValidPairsWellFormed(inst);
    var units := Group(inst, removed, false);
    RegretGroupCounts(inst, removed);
    RegretLoopGrows(inst, p, s.routes, units);
    var r := RegretLoop(inst, p, s.routes, units);
    if r.Success? {
      var a, b, c := multiset(Flatten(r.value)), multiset(Flatten(s.routes)), multiset(AllIds(units));
      forall x ensures a[x] == b[x] + c[x] {
        assert a == b + c;
      }
    }
  }

  /** Regret repair's units hold each removed customer it keeps once and
      nothing else, and there is a unit when some customer is kept. */
  lemma RegretGroupCounts(inst: Instance, removed: seq<nat>)
    requires PairsWellFormed(inst) && RouteInRange(inst, removed) && NoDuplicates(removed)
    ensures var units := Group(inst, removed, false);
            && ((exists x :: x in removed && Kept(inst, removed, x, false)) ==> |units| > 0)
            && forall x :: multiset(AllIds(units))[x] == if x in removed && Kept(inst, removed, x, false) then 1 else 0
  {
    var units := Group(inst, removed, false);
    var ids := AllIds(units);
    GroupPartition(inst, removed, false);
    if exists x :: x in removed && Kept(inst, removed, x, false) {
      var x :| x in removed && Kept(inst, removed, x, false);
      assert x in ids;
    }
    forall x ensures multiset(ids)[x] == if x in removed && Kept(inst, removed, x, false) then 1 else 0 {
      DistinctCount(ids, x);
    }
  }
}
