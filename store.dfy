/** The vehicle store: one ordered table from a vehicle's id to its record,
    with a lookup, two accumulating updates, a filter and a sort. */
module VehicleStore {
  import opened Vehicles

  /** Distinct keys make a set of exactly as many keys. */
  lemma {:induction false} DistinctKeysCount(ks: seq<string>)
    requires forall i, j :: 0 <= i < j < |ks| ==> ks[i] != ks[j]
    ensures |set k | k in ks| == |ks|
  {
    if ks != [] {
      var init := ks[..|ks| - 1];
      var last := ks[|ks| - 1];
      DistinctKeysCount(init);
      assert (set k | k in ks) == (set k | k in init) + {last};
      assert last !in (set k | k in init);
    }
  }

  /** Scanning one record further extends the filtered prefix by that record
      exactly when it matches. */
  lemma FilterExtend(s: seq<Vehicle>, i: nat, c: Criteria)
    requires i < |s|
    ensures Filter(s[..i + 1], c) == Filter(s[..i], c) + (if Matches(s[i], c) then [s[i]] else [])
  {
    assert s[..i + 1][..i] == s[..i];
  }

  /** What the filter promises of a scan over distinct records: exactly the
      matching ones, in scan order, each once, and all of them for the empty
      criterion. */
  lemma FilterOfEntries(s: seq<Vehicle>, c: Criteria, r: seq<Vehicle>)
    requires DistinctIds(s)
    requires r == Filter(s, c)
    ensures KeepsExactlyMatching(r, s, c)
  {
    FilterMembership(s, c);
    FilterIsSubsequence(s, c);
    FilterDistinct(s, c);
    if c == map[] {
      FilterEmptyCriteria(s);
    }
  }

  /** The persistent table (a B-tree map in the host): records by id, and
      the order in which a scan meets the keys. */
  class Store {
    /** The table: each id maps to the record stored under it. */
    var entries: map<string, Vehicle>
    /** The table's keys in iteration order, each exactly once. */
    var keys: seq<string>

    /** The keys list exactly the table's keys, once each, and every record
        is stored under its own id. */
    ghost predicate Valid()
      reads this
    {
      && (forall k :: k in entries <==> k in keys)
      && (forall i, j :: 0 <= i < j < |keys| ==> keys[i] != keys[j])
      && (forall k :: k in entries ==> entries[k].id == k)
    }

    /** The stored records in iteration order: what `entries()` yields. */
    ghost function Entries(): (r: seq<Vehicle>)
      reads this
      requires Valid()
      ensures |r| == |keys| == |entries|
      ensures forall i :: 0 <= i < |keys| ==> r[i] == entries[keys[i]]
    {
      DistinctKeysCount(keys);
      assert entries.Keys == set k | k in keys;
      Values(keys, entries)
    }

    /** A scan meets every stored record exactly once and nothing else. */
    lemma EntriesAreStored()
      requires Valid()
      ensures DistinctIds(Entries())
      ensures forall v :: v in Entries() <==> v.id in entries && entries[v.id] == v
    {
    }

    /** An empty store. */
    constructor ()
      ensures Valid()
      ensures entries == map[] && keys == []
    {
      entries := map[];
      keys := [];
    }

    /** The map's insert primitive: stores `v` under its own id, replacing
        any record already there; a new id joins the iteration order. */
    method Put(v: Vehicle)
      requires Valid()
      modifies this
      ensures Valid()
      ensures entries == old(entries)[v.id := v]
      ensures keys == if v.id in old(entries) then old(keys) else old(keys) + [v.id]
    {
      if v.id !in entries {
        keys := keys + [v.id];
      }
      entries := entries[v.id := v];
    }

    /** getVehicle: the record stored under `id`, or a not-found error. */
    function GetVehicle(id: string): (r: Result<Vehicle>)
      reads this
      requires Valid()
      ensures r.Ok? <==> id in entries
      ensures r.Ok? ==> r.value == entries[id] && r.value.id == id
      ensures r.Err? ==> r.error == NotFound(id) && Message(r.error) == "A vehicle with id=" + id + " not found"
    {
      if id in entries then Ok(entries[id]) else Err(NotFound(id))
    }

    /** addMileage: adds `miles` to the stored record's mileage, stamps it
        with the clock reading `now`, and stores it again under its id. */
    method AddMileage(id: string, miles: U64, now: U64) returns (r: Result<Vehicle>)
      requires Valid()
      modifies this`entries
      ensures Valid()
      ensures r.Ok? <==> id in old(entries) && old(entries[id].mileage) + miles < U64_BOUND
      ensures id !in old(entries) ==> r == Err(NotFound(id))
      ensures id in old(entries) && old(entries[id].mileage) + miles >= U64_BOUND ==> r == Err(Overflow(id))
      ensures r.Err? ==> entries == old(entries)
      ensures r.Ok? ==>
        && r.value.mileage == old(entries[id].mileage) + miles
        && r.value.createdAt == now
        && r.value.id == id
        && r.value.model == old(entries[id].model)
        && r.value.version == old(entries[id].version)
        && r.value.depreciation == old(entries[id].depreciation)
        && entries == old(entries)[id := r.value]
        && GetVehicle(id) == r
      ensures entries.Keys == old(entries.Keys)
      ensures forall k :: k in entries && k != id ==> entries[k] == old(entries[k])
      ensures forall k :: k in entries ==> entries[k].mileage >= old(entries[k].mileage)
    {
      if id !in entries {
        return Err(NotFound(id));
      }
      var vehicle := entries[id];
      if vehicle.mileage + miles >= U64_BOUND {
        return Err(Overflow(id));
      }
      var updated := vehicle.(mileage := vehicle.mileage + miles, createdAt := now);
      entries := entries[vehicle.id := updated];
      r := Ok(updated);
    }

    /** calculateDepreciation: adds `amount` to the stored record's
        depreciation, stamps it with the clock reading `now`, and stores it
        again under its id. */
    method CalculateDepreciation(id: string, amount: U64, now: U64) returns (r: Result<Vehicle>)
      requires Valid()
      modifies this`entries
      ensures Valid()
      ensures r.Ok? <==> id in old(entries) && old(entries[id].depreciation) + amount < U64_BOUND
      ensures id !in old(entries) ==> r == Err(NotFound(id))
      ensures id in old(entries) && old(entries[id].depreciation) + amount >= U64_BOUND ==> r == Err(Overflow(id))
      ensures r.Err? ==> entries == old(entries)
      ensures r.Ok? ==>
        && r.value.depreciation == old(entries[id].depreciation) + amount
        && r.value.createdAt == now
        && r.value.id == id
        && r.value.model == old(entries[id].model)
        && r.value.version == old(entries[id].version)
        && r.value.mileage == old(entries[id].mileage)
        && entries == old(entries)[id := r.value]
        && GetVehicle(id) == r
      ensures entries.Keys == old(entries.Keys)
      ensures forall k :: k in entries && k != id ==> entries[k] == old(entries[k])
      ensures forall k :: k in entries ==> entries[k].depreciation >= old(entries[k].depreciation)
    {
      if id !in entries {
        return Err(NotFound(id));
      }
      var vehicle := entries[id];
      var adjusted := vehicle.depreciation + amount;
      if adjusted >= U64_BOUND {
        return Err(Overflow(id));
      }
      var updated := vehicle.(depreciation := adjusted, createdAt := now);
      entries := entries[vehicle.id := updated];
      r := Ok(updated);
    }

    /** filterVehicles: one pass over the entries in key order, keeping the
        records that match `c`. */
    method FilterVehicles(c: Criteria) returns (r: seq<Vehicle>)
      requires Valid()
      ensures r == Filter(Entries(), c)
      ensures KeepsExactlyMatching(r, Entries(), c)
    {
      ghost var all := Entries();
      r := [];
      var i := 0;
      while i < |keys|
        invariant 0 <= i <= |keys|
        invariant r == Filter(all[..i], c)
      {
        var vehicle := entries[keys[i]];
        var matching := IsVehicleMatchingCriteria(vehicle, c);
        FilterExtend(all, i, c);
        if matching {
          r := r + [vehicle];
        }
        i := i + 1;
      }
      assert all[..|keys|] == all;
      FilterOfStore(c, r);
    }

    /** What a pass over the store that keeps the records matching `c` has
        returned. */
    lemma FilterOfStore(c: Criteria, r: seq<Vehicle>)
      requires Valid()
      requires r == Filter(Entries(), c)
      ensures KeepsExactlyMatching(r, Entries(), c)
    {
      EntriesAreStored();
      FilterOfEntries(Entries(), c, r);
    }

    /** The first half of sortVehicles: a fresh array holding every record,
        in key order. */
    method CopyEntries() returns (a: array<Vehicle>)
      requires Valid()
      ensures fresh(a)
      ensures a[..] == Entries()
    {
      a := new Vehicle[|keys|];
      var i := 0;
      while i < |keys|
        invariant 0 <= i <= |keys|
        invariant forall j :: 0 <= j < i ==> a[j] == entries[keys[j]]
      {
        a[i] := entries[keys[i]];
        i := i + 1;
      }
    }

    /** sortVehicles: copies every record, in key order, into an array and
        sorts it ascending by the numeric field `f`. */
    method SortVehicles(f: NumericField) returns (r: seq<Vehicle>)
      requires Valid()
      ensures SortedBy(r, f)
      ensures multiset(r) == multiset(Entries())
      ensures |r| == |entries|
      ensures forall v :: v in r <==> v.id in entries && entries[v.id] == v
    {
      var vehicles := CopyEntries();
      SortByField(vehicles, f);
      r := vehicles[..];
      SameElements(r, Entries());
      EntriesAreStored();
    }
  }

  /** Sequences with the same multiset have the same length and elements. */
  lemma SameElements(a: seq<Vehicle>, b: seq<Vehicle>)
    requires multiset(a) == multiset(b)
    ensures |a| == |b|
    ensures forall v :: v in a <==> v in b
  {
    assert |a| == |multiset(a)|;
    assert forall v :: v in a <==> v in multiset(a);
  }
}
