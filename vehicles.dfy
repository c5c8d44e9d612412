/** The Vehicle record, its fields, partial-record criteria, and the pure
    specifications of the store's two scans: filtering by criteria and
    sorting by a numeric field. */
module Vehicles {

  /** Exclusive upper bound of a `nat64` value: 2^64. */
  const U64_BOUND: nat := 0x1_0000_0000_0000_0000

  /** An unsigned 64-bit value, as the record's `nat64` fields hold. */
  type U64 = n: nat | n < U64_BOUND

  /** A stored vehicle. `createdAt` keeps its source name although every
      update overwrites it, so it records the time of the last change. */
  datatype Vehicle = Vehicle(
    id: string,
    model: string,
    version: string,
    mileage: U64,
    depreciation: U64,
    createdAt: U64)

  /** The names of the record's fields (`keyof Vehicle`). */
  datatype Field = Id | Model | Version | Mileage | Depreciation | CreatedAt

  /** A field's value: the three string fields give `Text`, the three
      `nat64` fields give `Num`. */
  datatype Value = Text(s: string) | Num(n: nat)

  /** `vehicle[key]`: the value stored under field `f`. */
  function FieldValue(v: Vehicle, f: Field): (r: Value)
    ensures r.Num? <==> f.Mileage? || f.Depreciation? || f.CreatedAt?
    ensures r.Num? ==> r.n < U64_BOUND
    ensures f.Id? ==> r == Text(v.id)
  {
    match f
    case Id => Text(v.id)
    case Model => Text(v.model)
    case Version => Text(v.version)
    case Mileage => Num(v.mileage)
    case Depreciation => Num(v.depreciation)
    case CreatedAt => Num(v.createdAt)
  }

  /** A partial record (`Partial<Vehicle>`): the fields it mentions and the
      value each must have. A field it does not mention is unconstrained. */
  type Criteria = map<Field, Value>

  /** `v` agrees with `c` on every field that `c` mentions. */
  ghost predicate Matches(v: Vehicle, c: Criteria) {
    forall f :: f in c ==> FieldValue(v, f) == c[f]
  }

  /** Why a lookup or an update failed. */
  datatype Error =
    | NotFound(id: string)   // no record is stored under `id`
    | Overflow(id: string)   // the accumulated counter would leave the nat64 range

  /** The human-readable text of an error: `A vehicle with id=<id> ...`. */
  function Message(e: Error): (r: string)
    ensures |r| > 18 + |e.id|
    ensures r[..18] == "A vehicle with id=" && r[18..18 + |e.id|] == e.id
  {
    match e
    case NotFound(id) => "A vehicle with id=" + id + " not found"
    case Overflow(id) => "A vehicle with id=" + id + " cannot hold a counter above 2^64 - 1"
  }

  datatype Result<T> = Ok(value: T) | Err(error: Error)

  /** The fields that carry numbers, the only ones the sort's subtracting
      comparator orders meaningfully. */
  type NumericField = f: Field | f.Mileage? || f.Depreciation? || f.CreatedAt? witness Mileage

  /** The number the comparator reads from `v` when sorting by `f`. */
  function SortKey(v: Vehicle, f: NumericField): (k: nat)
    ensures FieldValue(v, f) == Num(k)
    ensures k < U64_BOUND
  {
    if f.Mileage? then v.mileage
    else if f.Depreciation? then v.depreciation
    else v.createdAt
  }

  /** `s` is in ascending order of field `f`. */
  ghost predicate SortedBy(s: seq<Vehicle>, f: NumericField) {
    forall i, j :: 0 <= i < j < |s| ==> SortKey(s[i], f) <= SortKey(s[j], f)
  }

  /** No two records of `s` share an id. */
  ghost predicate DistinctIds(s: seq<Vehicle>) {
    forall i, j :: 0 <= i < j < |s| ==> s[i].id != s[j].id
  }

  /** `a` is obtained from `s` by deleting elements, keeping the order. */
  ghost predicate IsSubsequence(a: seq<Vehicle>, s: seq<Vehicle>)
    decreases |s|
  {
    || a == []
    || (&& s != []
        && (|| (a[|a| - 1] == s[|s| - 1] && IsSubsequence(a[..|a| - 1], s[..|s| - 1]))
            || IsSubsequence(a, s[..|s| - 1])))
  }

  /** `r` is what filtering the scan `s` by `c` promises: exactly the
      matching records of `s`, in the order of `s`, no id twice, and all of
      `s` for the empty criterion. */
  ghost predicate KeepsExactlyMatching(r: seq<Vehicle>, s: seq<Vehicle>, c: Criteria) {
    && (forall v :: v in r <==> v in s && Matches(v, c))
    && IsSubsequence(r, s)
    && DistinctIds(r)
    && (c == map[] ==> r == s)
  }

  /** The records of `m`, listed in the order the keys `ks` give. */
  ghost function Values(ks: seq<string>, m: map<string, Vehicle>): (r: seq<Vehicle>)
    requires forall k :: k in ks ==> k in m
    ensures |r| == |ks|
    ensures forall i :: 0 <= i < |ks| ==> r[i] == m[ks[i]]
  {
    if ks == [] then [] else Values(ks[..|ks| - 1], m) + [m[ks[|ks| - 1]]]
  }

  /** The records of `s` that match `c`, in the order of `s`: what one pass
      over the entries keeps. */
  ghost function Filter(s: seq<Vehicle>, c: Criteria): (r: seq<Vehicle>)
    ensures |r| <= |s|
  {
    if s == [] then []
    else
      var kept := Filter(s[..|s| - 1], c);
      if Matches(s[|s| - 1], c) then kept + [s[|s| - 1]] else kept
  }

  /** A record is in the filter's result exactly when it is in the input and
      matches the criteria. */
  lemma {:induction false} FilterMembership(s: seq<Vehicle>, c: Criteria)
    ensures forall v :: v in Filter(s, c) <==> v in s && Matches(v, c)
  {
    if s != [] {
      var init := s[..|s| - 1];
      FilterMembership(init, c);
      assert s == init + [s[|s| - 1]];
    }
  }

  /** The filter's result keeps the input's order. */
  lemma {:induction false} FilterIsSubsequence(s: seq<Vehicle>, c: Criteria)
    ensures IsSubsequence(Filter(s, c), s)
  {
    if s != [] {
      var init := s[..|s| - 1];
      FilterIsSubsequence(init, c);
      var kept := Filter(init, c);
      if Matches(s[|s| - 1], c) {
        assert (kept + [s[|s| - 1]])[..|kept|] == kept;
      } else {
        SubsequenceOfPrefix(kept, init, s);
      }
    }
  }

  /** A subsequence of `s[..|s| - 1]` is a subsequence of `s`. */
  lemma SubsequenceOfPrefix(a: seq<Vehicle>, init: seq<Vehicle>, s: seq<Vehicle>)
    requires s != [] && init == s[..|s| - 1]
    requires IsSubsequence(a, init)
    ensures IsSubsequence(a, s)
  {
  }

  /** When every record matches, the filter returns its input unchanged. */
  lemma {:induction false} FilterKeepsAllMatching(s: seq<Vehicle>, c: Criteria)
    requires forall i :: 0 <= i < |s| ==> Matches(s[i], c)
    ensures Filter(s, c) == s
  {
    if s != [] {
      var init := s[..|s| - 1];
      var last := s[|s| - 1];
      assert Matches(last, c);
      FilterKeepsAllMatching(init, c);
      assert Filter(s, c) == init + [last];
      assert s == init + [last];
    }
  }

  /** The empty criterion matches every vehicle, so filtering by it returns
      every record. */
  lemma {:induction false} FilterEmptyCriteria(s: seq<Vehicle>)
    ensures Filter(s, map[]) == s
  {
    FilterKeepsAllMatching(s, map[]);
  }

  /** Filtering never yields the same id twice when the input does not hold
      it twice. */
  lemma {:induction false} FilterDistinct(s: seq<Vehicle>, c: Criteria)
    requires DistinctIds(s)
    ensures DistinctIds(Filter(s, c))
  {
    if s != [] {
      var init := s[..|s| - 1];
      var last := s[|s| - 1];
      assert DistinctIds(init);
      FilterDistinct(init, c);
      FilterMembership(init, c);
      var kept := Filter(init, c);
      if Matches(last, c) {
        forall i | 0 <= i < |kept|
          ensures kept[i].id != last.id
        {
          assert kept[i] in init;
        }
      }
    }
  }

  /** isVehicleMatchingCriteria: walks the fields the criterion mentions and
      answers false at the first one whose value differs. */
  method IsVehicleMatchingCriteria(v: Vehicle, c: Criteria) returns (r: bool)
    ensures r <==> Matches(v, c)
  {
    var pending := c.Keys;
    while pending != {}
      invariant pending <= c.Keys
      invariant forall f :: f in c && f !in pending ==> FieldValue(v, f) == c[f]
      decreases pending
    {
      var f :| f in pending;
      if FieldValue(v, f) != c[f] {
        return false;
      }
      pending := pending - {f};
    }
    return true;
  }

  /** Sorts `a` in place into ascending order of field `f` (insertion sort;
      it moves a record left only past strictly larger keys). */
  method SortByField(a: array<Vehicle>, f: NumericField)
    modifies a
    ensures SortedBy(a[..], f)
    ensures multiset(a[..]) == multiset(old(a[..]))
  {
    var i := 0;
    while i < a.Length
      invariant 0 <= i <= a.Length
      invariant SortedPrefix(a[..], i, f)
      invariant multiset(a[..]) == multiset(old(a[..]))
    {
      InsertLeft(a, i, f);
      i := i + 1;
    }
  }

  /** The first `n` records of `s` are ascending in `f`. */
  ghost predicate SortedPrefix(s: seq<Vehicle>, n: nat, f: NumericField)
    requires n <= |s|
  {
    forall p, q :: 0 <= p < q < n ==> SortKey(s[p], f) <= SortKey(s[q], f)
  }

  /** The state of one insertion step that started from `s0` and has carried
      the record being inserted down to position `j`: `s[..i + 1]` holds the
      records of `s0[..i + 1]` and is ascending apart from position `j`, and
      the rest of `s` is that of `s0`. */
  ghost predicate Inserting(s0: seq<Vehicle>, s: seq<Vehicle>, i: nat, j: nat, f: NumericField) {
    && j <= i < |s| == |s0|
    && (forall p, q :: 0 <= p < q <= i && q != j ==> SortKey(s[p], f) <= SortKey(s[q], f))
    && multiset(s[..i + 1]) == multiset(s0[..i + 1])
    && s[i + 1..] == s0[i + 1..]
  }

  /** A step starts with the record at `i` set aside next to a sorted prefix. */
  lemma InsertStart(s: seq<Vehicle>, i: nat, f: NumericField)
    requires i < |s| && SortedPrefix(s, i, f)
    ensures Inserting(s, s, i, i, f)
  {
  }

  /** Swapping the set-aside record with a strictly larger left neighbour
      moves it one position left and keeps the step's state. */
  lemma InsertSwap(s0: seq<Vehicle>, s: seq<Vehicle>, i: nat, j: nat, f: NumericField)
    requires Inserting(s0, s, i, j, f) && 0 < j
    requires SortKey(s[j], f) < SortKey(s[j - 1], f)
    ensures Inserting(s0, s[j - 1 := s[j]][j := s[j - 1]], i, j - 1, f)
  {
    var t := s[j - 1 := s[j]][j := s[j - 1]];
    forall p, q | 0 <= p < q <= i && q != j - 1
      ensures SortKey(t[p], f) <= SortKey(t[q], f)
    {
      if q == j && p < j - 1 {
        assert t[p] == s[p] && t[q] == s[j - 1];
      } else if p == j - 1 && q > j {
        assert SortKey(s[j - 1], f) <= SortKey(s[q], f);
      } else if p == j {
        assert SortKey(s[j - 1], f) <= SortKey(s[q], f);
      }
    }
    assert t[..i + 1] == s[..i + 1][j - 1 := s[j]][j := s[j - 1]];
    assert t[i + 1..] == s[i + 1..];
  }

  /** Once the set-aside record is not smaller than its left neighbour, the
      prefix `s[..i + 1]` is sorted and the whole sequence holds the records
      of `s0`. */
  lemma InsertDone(s0: seq<Vehicle>, s: seq<Vehicle>, i: nat, j: nat, f: NumericField)
    requires Inserting(s0, s, i, j, f)
    requires j == 0 || SortKey(s[j - 1], f) <= SortKey(s[j], f)
    ensures SortedPrefix(s, i + 1, f)
    ensures multiset(s) == multiset(s0)
  {
    forall p | 0 <= p < j
      ensures SortKey(s[p], f) <= SortKey(s[j], f)
    {
      if p < j - 1 {
        assert SortKey(s[p], f) <= SortKey(s[j - 1], f);
      }
    }
    assert s == s[..i + 1] + s[i + 1..];
    assert s0 == s0[..i + 1] + s0[i + 1..];
  }

  /** Exchanges `a[i]` and `a[i + 1]`. */
  method SwapAdjacent(a: array<Vehicle>, i: nat)
    requires i + 1 < a.Length
    modifies a
    ensures a[..] == old(a[..])[i := old(a[i + 1])][i + 1 := old(a[i])]
  {
    a[i], a[i + 1] := a[i + 1], a[i];
  }

  /** Moves `a[i]` left past the strictly larger keys before it, so that a
      sorted `a[..i]` becomes a sorted `a[..i + 1]` holding the records of
      the old `a[..i + 1]`; the rest of the array is untouched. */
  method InsertLeft(a: array<Vehicle>, i: nat, f: NumericField)
    requires i < a.Length
    requires SortedPrefix(a[..], i, f)
    modifies a
    ensures SortedPrefix(a[..], i + 1, f)
    ensures multiset(a[..i + 1]) == multiset(old(a[..i + 1]))
    ensures a[i + 1..] == old(a[i + 1..])
    ensures multiset(a[..]) == multiset(old(a[..]))
  {
    ghost var s0 := a[..];
    InsertStart(s0, i, f);
    var j: nat := i;
    while 0 < j && SortKey(a[j], f) < SortKey(a[j - 1], f)
      invariant Inserting(s0, a[..], i, j, f)
    {
      InsertSwap(s0, a[..], i, j, f);
      SwapAdjacent(a, j - 1);
      j := j - 1;
    }
    InsertDone(s0, a[..], i, j, f);
  }
}
