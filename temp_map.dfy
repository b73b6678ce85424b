/** The parser's operation-order map: one bucket (a `TempList`) per priority
    rank, indexed by rank so that ascending keys run from the highest
    priority to the lowest. Buckets first touched since the last commit point
    are journalled in `tempIndexes`, so that their uncommitted tails can be
    committed or rolled back together. */
module TempMaps {
  import opened Wrappers
  import opened TempLists

  /** One bucket after `clearLists(commit)`. */
  function Settled<T>(m: ListModel<T>, commit: bool): (r: ListModel<T>)
    requires WellFormed(m)
    ensures WellFormed(r) && r.tempSize == 0
  {
    if commit then Committed(m) else RolledBack(m)
  }

  /** Settling twice is settling once, so a key journalled twice is harmless. */
  lemma SettledIdempotent<T>(m: ListModel<T>, commit: bool)
    requires WellFormed(m)
    ensures Settled(Settled(m, commit), commit) == Settled(m, commit)
  {
    if !commit {
      var r := RolledBack(m);
      assert r.elements[..|r.elements| - 0] == r.elements;
    }
  }

  /** What a map holds, as a value: a slot per rank (an absent bucket is
      `None`), the journal of keys touched since the last commit point, the
      `existsTemp` flags and the count of buckets created since the last clear. */
  datatype MapModel<T> = MapModel(slots: seq<Option<ListModel<T>>>, journal: seq<int>, flags: seq<bool>, size: nat)

  /** The shape `TempMap`'s methods maintain (see `TempMap.Valid`). */
  ghost predicate MapWellFormed<T>(m: MapModel<T>) {
    |m.flags| == |m.slots| && |m.journal| <= |m.slots| &&
    (m.size > 0 ==> |m.slots| > 0) &&
    (m.size == 0 ==> forall i :: 0 <= i < |m.slots| ==> m.slots[i].None?) &&
    (forall i :: 0 <= i < |m.slots| && m.slots[i].Some? ==> WellFormed(m.slots[i].value) && m.flags[i]) &&
    (forall k :: 0 <= k < |m.journal| ==> 0 <= m.journal[k] < |m.slots| && m.flags[m.journal[k]])
  }

  /** `new TempMap(max)`. */
  function EmptyMap<T>(max: nat): (r: MapModel<T>)
    ensures MapWellFormed(r) && |r.slots| == max && r.size == 0 && r.journal == []
  {
    MapModel(seq(max, _ => None), [], seq(max, _ => false), 0)
  }

  /** `getOrAdd(key)` on a map value: the same map when the bucket exists,
      otherwise the map with a fresh bucket of capacity 16 journalled at `key`. */
  function MapGetOrAdd<T>(m: MapModel<T>, key: int): (r: Result<MapModel<T>>)
    requires MapWellFormed(m)
    ensures r.Ok? <==> 0 <= key < |m.slots| && (m.slots[key].Some? || |m.journal| < |m.slots|)
    ensures r.Err? ==> r.error == IndexOutOfBounds
    ensures r.Ok? ==> MapWellFormed(r.value) && |r.value.slots| == |m.slots| && r.value.slots[key].Some?
    ensures r.Ok? && m.slots[key].Some? ==> r.value == m
    ensures r.Ok? && m.slots[key].None? ==>
      r.value.slots == m.slots[key := Some(ListModel([], 0, 16))] &&
      r.value.journal == m.journal + [key] && r.value.size == m.size + 1
  {
    if key < 0 then Err(IndexOutOfBounds)
    else if key < |m.slots| && m.slots[key].Some? then Ok(m)
    else if |m.journal| >= |m.slots| || key >= |m.slots| then Err(IndexOutOfBounds)
    else Ok(MapModel(m.slots[key := Some(ListModel([], 0, 16))], m.journal + [key], m.flags[key := true], m.size + 1))
  }

  /** The bucket at `key` replaced by `l`. */
  function WithSlot<T>(m: MapModel<T>, key: int, l: ListModel<T>): (r: MapModel<T>)
    requires MapWellFormed(m) && 0 <= key < |m.slots| && m.slots[key].Some? && WellFormed(l)
    ensures MapWellFormed(r) && r.slots == m.slots[key := Some(l)]
    ensures r.journal == m.journal && r.size == m.size
  {
    m.(slots := m.slots[key := Some(l)])
  }

  /** `getOrAdd(key).add(e)`. */
  function MapAdd<T>(m: MapModel<T>, key: int, e: T): (r: Result<MapModel<T>>)
    requires MapWellFormed(m)
    ensures r.Ok? ==> MapWellFormed(r.value) && |r.value.slots| == |m.slots| && r.value.size >= m.size
    ensures r.Ok? ==>
      0 <= key < |m.slots| && r.value.slots[key].Some? &&
      r.value.slots[key].value.elements == (if m.slots[key].Some? then m.slots[key].value.elements else []) + [e]
    ensures r.Ok? ==> forall i :: 0 <= i < |m.slots| && i != key ==> r.value.slots[i] == m.slots[i]
    ensures r.Err? ==> r.error == IndexOutOfBounds
  {
    var m' :- MapGetOrAdd(m, key);
    var l :- ListAdd(m'.slots[key].value, e);
    Ok(WithSlot(m', key, l))
  }

  /** The buckets after `clearLists(commit)` has settled the journalled keys
      from position `k` on; a journalled key without a bucket dereferences null. */
  function SettleFrom<T>(m: MapModel<T>, k: nat, commit: bool): (r: Result<MapModel<T>>)
    requires MapWellFormed(m) && k <= |m.journal|
    ensures r.Ok? <==> forall j :: k <= j < |m.journal| ==> m.slots[m.journal[j]].Some?
    ensures r.Err? ==> r.error == NullReference
    ensures r.Ok? ==> MapWellFormed(r.value) && |r.value.slots| == |m.slots| &&
                      r.value.journal == m.journal && r.value.size == m.size
    decreases |m.journal| - k
  {
    if k == |m.journal| then Ok(m)
    else
      var key := m.journal[k];
      if m.slots[key].None? then Err(NullReference)
      else SettleFrom(WithSlot(m, key, Settled(m.slots[key].value, commit)), k + 1, commit)
  }

  /** Settling from position `k` commits or rolls back exactly the buckets
      journalled from there on, each once however often it was journalled. */
  lemma {:induction false} SettleFromSlots<T>(m: MapModel<T>, k: nat, commit: bool, i: int)
    requires MapWellFormed(m) && k <= |m.journal| && SettleFrom(m, k, commit).Ok? && 0 <= i < |m.slots|
    ensures SettleFrom(m, k, commit).value.slots[i] ==
      if m.slots[i].Some? && i in m.journal[k..] then Some(Settled(m.slots[i].value, commit)) else m.slots[i]
    decreases |m.journal| - k
  {
    if k < |m.journal| {
      var key := m.journal[k];
      var m' := WithSlot(m, key, Settled(m.slots[key].value, commit));
      SettleFromSlots(m', k + 1, commit, i);
      assert m.journal[k..] == [key] + m.journal[k + 1..];
      if i == key {
        SettledIdempotent(m.slots[key].value, commit);
      }
    }
  }

  /** `clearLists(commit)`: every journalled bucket committed or rolled back,
      and the journal emptied. */
  function MapSettle<T>(m: MapModel<T>, commit: bool): (r: Result<MapModel<T>>)
    requires MapWellFormed(m)
    ensures r.Ok? <==> forall j :: 0 <= j < |m.journal| ==> m.slots[m.journal[j]].Some?
    ensures r.Err? ==> r.error == NullReference
    ensures r.Ok? ==> MapWellFormed(r.value) && |r.value.slots| == |m.slots| &&
                      r.value.journal == [] && r.value.size == m.size
  {
    var s :- SettleFrom(m, 0, commit);
    Ok(s.(journal := []))
  }

  /** What `MapSettle` does to each bucket. */
  lemma MapSettleSlots<T>(m: MapModel<T>, commit: bool, i: int)
    requires MapWellFormed(m) && MapSettle(m, commit).Ok? && 0 <= i < |m.slots|
    ensures MapSettle(m, commit).value.slots[i] ==
      if m.slots[i].Some? && i in m.journal then Some(Settled(m.slots[i].value, commit)) else m.slots[i]
  {
    SettleFromSlots(m, 0, commit, i);
    assert m.journal[0..] == m.journal;
  }

  /** `clear()`: no buckets and an empty journal; the flags stay. */
  function MapClear<T>(m: MapModel<T>): (r: MapModel<T>)
    requires MapWellFormed(m)
    ensures MapWellFormed(r) && |r.slots| == |m.slots| && r.journal == [] && r.size == 0
    ensures forall i :: 0 <= i < |r.slots| ==> r.slots[i].None?
  {
    MapModel(seq(|m.slots|, _ => None), [], m.flags, 0)
  }

  /** The entries of the buckets at ranks below `n`, in ascending rank order
      (what `complete()` copies into its new list). */
  function MapJoined<T>(slots: seq<Option<ListModel<T>>>, n: nat): (r: seq<T>)
    requires n <= |slots|
    ensures forall i :: 0 <= i < n && slots[i].Some? ==> multiset(slots[i].value.elements) <= multiset(r)
    ensures (forall i :: 0 <= i < n ==> slots[i].None?) ==> r == []
  {
    if n == 0 then []
    else
      var r := MapJoined(slots, n - 1) + (if slots[n - 1].Some? then slots[n - 1].value.elements else []);
      assert forall i :: 0 <= i < n - 1 && slots[i].Some? ==> multiset(slots[i].value.elements) <= multiset(MapJoined(slots, n - 1));
      r
  }

  /** `getAndRemoveLast()`: the bucket of the highest rank, detached, or
      nothing when no bucket was created since the last clear. */
  function MapGetAndRemoveLast<T>(m: MapModel<T>): (r: (Option<ListModel<T>>, MapModel<T>))
    requires MapWellFormed(m)
    ensures m.size == 0 ==> r == (None, m)
    ensures m.size > 0 ==>
      r.0 == m.slots[|m.slots| - 1] && r.1 == m.(slots := m.slots[|m.slots| - 1 := None])
    ensures r.0.Some? ==> WellFormed(r.0.value)
    ensures MapWellFormed(r.1)
    ensures |r.1.slots| == |m.slots| && r.1.journal == m.journal && r.1.size == m.size
  {
    if m.size == 0 then (None, m)
    else (m.slots[|m.slots| - 1], m.(slots := m.slots[|m.slots| - 1 := None]))
  }

  /** Every journalled key still has a bucket in `cells`. */
  ghost predicate JournalledPresent<T>(cells: seq<TempList?<T>>, rec: seq<int>)
  {
    forall j :: 0 <= j < |rec| && 0 <= rec[j] < |cells| ==> cells[rec[j]] != null
  }

  class TempMap<T> {
    var data: array<TempList?<T>>
    var tempIndexes: array<int>
    var existsTemp: array<bool>
    var tempIndex: nat
    var size: nat
    ghost var Repr: set<object>

    ghost predicate Valid()
      reads this, Repr
      ensures Valid() ==> this in Repr
    {
      this in Repr && data in Repr && tempIndexes in Repr && existsTemp in Repr &&
      tempIndexes.Length == data.Length && existsTemp.Length == data.Length &&
      tempIndex <= data.Length &&
      (size == 0 ==> forall i :: 0 <= i < data.Length ==> data[i] == null) &&
      (size > 0 ==> data.Length > 0) &&
      (forall i :: 0 <= i < data.Length && data[i] != null ==> BucketOwned(i)) &&
      (forall i, j ::
         0 <= i < data.Length && 0 <= j < data.Length && i != j && data[i] != null && data[j] != null
         ==> data[i].Repr !! data[j].Repr) &&
      (forall k :: 0 <= k < tempIndex ==>
         0 <= tempIndexes[k] < data.Length && existsTemp[tempIndexes[k]])
    }

    /** The bucket at rank `i` is valid, lies inside the map's footprint, is
        disjoint from the map's own arrays, and was journalled or flagged. */
    ghost predicate BucketOwned(i: int)
      reads this, Repr, data, existsTemp
      requires 0 <= i < data.Length && data[i] != null && existsTemp.Length == data.Length
    {
      data[i] in Repr && data[i].Repr <= Repr && data[i].Valid() && existsTemp[i] &&
      data !in data[i].Repr && tempIndexes !in data[i].Repr && existsTemp !in data[i].Repr &&
      this !in data[i].Repr
    }

    /** The bucket at rank `i`, as a value. */
    ghost function Slot(i: int): Option<ListModel<T>>
      reads this, data, data[..]
    {
      if 0 <= i < data.Length && data[i] != null then Some(data[i].Model()) else None
    }

    /** The keys journalled since the last commit point, in order. */
    ghost function Recorded(): seq<int>
      reads this, tempIndexes
      requires tempIndex <= tempIndexes.Length
    {
      tempIndexes[..tempIndex]
    }

    /** The entries of the buckets at ranks below `n`, in ascending rank order. */
    ghost function Joined(n: nat): seq<T>
      reads this, data, data[..]
      requires n <= data.Length
    {
      if n == 0 then []
      else Joined(n - 1) + (if data[n - 1] != null then data[n - 1].elements else [])
    }

    constructor(max: nat)
      ensures Valid() && fresh(Repr)
      ensures data.Length == max && tempIndex == 0 && size == 0
      ensures forall i :: 0 <= i < max ==> Slot(i) == None && !existsTemp[i]
    {
      data := new TempList?<T>[max](_ => null);
      tempIndexes := new int[max];
      existsTemp := new bool[max](_ => false);
      tempIndex, size := 0, 0;
      Repr := {this, data, tempIndexes, existsTemp};
    }

    /** No bucket was created since the last `clear`: then every slot is empty.
        (The converse fails: `getAndRemoveLast` empties a slot without
        lowering the count.) */
    function IsEmpty(): (r: bool)
      reads this, Repr
      requires Valid()
      ensures r ==> forall i :: 0 <= i < data.Length ==> Slot(i) == None
    {
      size == 0
    }

    /** Detaches and returns the bucket of the highest rank (the lowest
        priority), or null when no bucket was created since the last clear. */
    method GetAndRemoveLast() returns (r: TempList?<T>)
      requires Valid()
      modifies data
      ensures Valid() && Repr == old(Repr)
      ensures old(size) == 0 ==> r == null
      ensures old(size) > 0 ==>
        r == old(data[data.Length - 1]) && data[data.Length - 1] == null
      ensures forall i :: 0 <= i < data.Length && (old(size) == 0 || i != data.Length - 1) ==>
        data[i] == old(data[i]) && Slot(i) == old(Slot(i))
      ensures r != null ==> r.Valid() && r.Repr <= Repr && r.Model() == old(r.Model())
    {
      if size == 0 {
        return null;
      }
      r := data[data.Length - 1];
      data[data.Length - 1] := null;
    }

    /** Stores `list` at `key`, journals the key and counts one more bucket.
        Java's stores fail on a full journal or a key outside the map. */
    method Put(key: int, list: TempList<T>) returns (r: Result<TempList<T>>)
      requires Valid() && list.Valid() && list.Repr !! Repr
      modifies this, data, tempIndexes, existsTemp
      ensures data == old(data) && tempIndexes == old(tempIndexes) && existsTemp == old(existsTemp)
      ensures Valid()
      ensures r.Ok? <==> old(tempIndex) < data.Length && 0 <= key < data.Length
      ensures r.Err? ==> r.error == IndexOutOfBounds
      ensures r.Err? ==> Repr == old(Repr) && Recorded() == old(Recorded()) && size == old(size)
      ensures r.Err? ==> forall i :: 0 <= i < data.Length ==> data[i] == old(data[i]) && Slot(i) == old(Slot(i))
      ensures r.Ok? ==>
        r.value == list && data[key] == list && Repr == old(Repr) + list.Repr &&
        Recorded() == old(Recorded()) + [key] && size == old(size) + 1 &&
        forall i :: 0 <= i < data.Length && i != key ==> data[i] == old(data[i]) && Slot(i) == old(Slot(i))
    {
      if tempIndex >= tempIndexes.Length || key < 0 || key >= existsTemp.Length {
        return Err(IndexOutOfBounds);
      }
      Store(key, list);
      r := Ok(list);
    }

    /** The stores of `put` once the key and the journal have room. */
    method Store(key: int, list: TempList<T>)
      requires Valid() && list.Valid() && list.Repr !! Repr
      requires tempIndex < data.Length && 0 <= key < data.Length
      modifies this, data, tempIndexes, existsTemp
      ensures data == old(data) && tempIndexes == old(tempIndexes) && existsTemp == old(existsTemp)
      ensures Valid()
      ensures data[key] == list && Repr == old(Repr) + list.Repr &&
        Recorded() == old(Recorded()) + [key] && size == old(size) + 1 &&
        forall i :: 0 <= i < data.Length && i != key ==> data[i] == old(data[i]) && Slot(i) == old(Slot(i))
    {
      Journal(key);
      Attach(key, list);
    }

    /** `key` journalled and flagged, one more bucket counted. */
    method Journal(key: int)
      requires Valid() && tempIndex < data.Length && 0 <= key < data.Length
      modifies this, tempIndexes, existsTemp
      ensures data == old(data) && tempIndexes == old(tempIndexes) && existsTemp == old(existsTemp)
      ensures Valid() && existsTemp[key] && Repr == old(Repr)
      ensures Recorded() == old(Recorded()) + [key] && size == old(size) + 1
    {
      tempIndexes[tempIndex] := key;
      tempIndex := tempIndex + 1;
      assert Recorded() == old(Recorded()) + [key];
      existsTemp[key] := true;
      size := size + 1;
      forall i | 0 <= i < data.Length && data[i] != null
        ensures BucketOwned(i)
      {
        assert old(BucketOwned(i));
      }
    }

    /** `list` stored at the flagged rank `key`. */
    method Attach(key: int, list: TempList<T>)
      requires Valid() && list.Valid() && list.Repr !! Repr && 0 <= key < data.Length && existsTemp[key] && size > 0
      modifies this, data
      ensures Valid() && data == old(data) && tempIndexes == old(tempIndexes) && existsTemp == old(existsTemp)
      ensures data[key] == list && Repr == old(Repr) + list.Repr
      ensures Recorded() == old(Recorded()) && size == old(size)
      ensures forall i :: 0 <= i < data.Length && i != key ==> data[i] == old(data[i]) && Slot(i) == old(Slot(i))
    {
      data[key] := list;
      Repr := Repr + list.Repr;
      forall i | 0 <= i < data.Length && data[i] != null
        ensures BucketOwned(i)
      {
        if i != key {
          assert old(BucketOwned(i));
        }
      }
    }

    /** The bucket at `key` (possibly null). */
    function SureGet(key: int): (r: TempList?<T>)
      reads this, data
      requires 0 <= key < data.Length
      ensures r == data[key]
    {
      data[key]
    }

    /** The bucket at `key`, created (and journalled) when there is none. An
        existing bucket is never journalled again: every created bucket has
        its `existsTemp` flag set, and nothing ever clears a flag, so Java's
        re-journalling branch cannot run. */
    method GetOrAdd(key: int) returns (r: Result<TempList<T>>)
      requires Valid()
      modifies this, data, tempIndexes, existsTemp
      ensures Valid() && fresh(Repr - old(Repr))
      ensures data == old(data) && tempIndexes == old(tempIndexes) && existsTemp == old(existsTemp)
      ensures r.Ok? <==>
        0 <= key < data.Length && (old(data[key]) != null || old(tempIndex) < data.Length)
      ensures r.Err? ==> r.error == IndexOutOfBounds
      ensures r.Err? || (r.Ok? && old(data[key]) != null) ==>
        Repr == old(Repr) && Recorded() == old(Recorded()) && size == old(size) &&
        forall i :: 0 <= i < data.Length ==> data[i] == old(data[i]) && Slot(i) == old(Slot(i))
      ensures r.Ok? ==> data[key] == r.value && r.value.Valid() && r.value.Repr <= Repr
      ensures r.Ok? && old(data[key]) == null ==>
        fresh(r.value.Repr) && Slot(key) == Some(ListModel([], 0, 16)) &&
        Recorded() == old(Recorded()) + [key] && size == old(size) + 1 &&
        forall i :: 0 <= i < data.Length && i != key ==> data[i] == old(data[i]) && Slot(i) == old(Slot(i))
    {
      if key < 0 {
        return Err(IndexOutOfBounds);
      }
      if key < data.Length && data[key] != null {
        // Java re-journals the key when `existsTemp[key]` is unset; `Valid()`
        // keeps that flag set for every created bucket, so that never happens.
        return Ok(data[key]);
      }
      var list := new TempList();
      r := Put(key, list);
    }

    /** Empties every slot and the journal; the `existsTemp` flags stay set. */
    method Clear()
      requires Valid()
      modifies this, data
      ensures Valid() && Repr == old(Repr)
      ensures data == old(data) && tempIndex == 0 && size == 0
      ensures forall i :: 0 <= i < data.Length ==> data[i] == null && Slot(i) == None
      ensures existsTemp == old(existsTemp)
    {
      var i := 0;
      while i < data.Length
        invariant 0 <= i <= data.Length
        invariant Repr == old(Repr) && size == old(size) && tempIndex == old(tempIndex)
        invariant data == old(data) && tempIndexes == old(tempIndexes) && existsTemp == old(existsTemp)
        invariant forall j :: 0 <= j < i ==> data[j] == null
        invariant forall j :: i <= j < data.Length ==> data[j] == old(data[j])
      {
        data[i] := null;
        i := i + 1;
      }
      tempIndex := 0;
      size := 0;
    }

    /** Commits (`commit`) or rolls back the uncommitted tails of the
        journalled buckets and empties the journal. A journalled key whose
        bucket was detached makes Java dereference null. */
    method ClearLists(commit: bool) returns (o: Outcome)
      requires Valid()
      modifies Repr
      ensures Valid() && Repr == old(Repr)
      ensures data == old(data) && tempIndexes == old(tempIndexes) && existsTemp == old(existsTemp)
      ensures forall i :: 0 <= i < data.Length ==> data[i] == old(data[i])
      ensures size == old(size)
      ensures o.Pass? <==> JournalledPresent(old(data[..]), old(Recorded()))
      ensures o.Fail? ==> o.error == NullReference
      ensures o.Pass? ==> tempIndex == 0
      ensures o.Pass? ==> forall i :: 0 <= i < data.Length ==>
        Slot(i) == if old(Slot(i)).Some? && i in old(Recorded())
                   then Some(Settled(old(Slot(i)).value, commit)) else old(Slot(i))
    {
      ghost var slots0, rec, cells0 := Slots(), Recorded(), data[..];
      var ok := SettleAll(commit, slots0, rec, cells0);
      if !ok {
        return Fail(NullReference);
      }
      assert rec[..|rec|] == rec;
      tempIndex := 0;
      o := Pass;
    }

    /** The loop of `clearLists`: the journalled buckets settled in journal
        order, up to the first detached one. */
    method SettleAll(commit: bool, ghost slots0: seq<Option<ListModel<T>>>, ghost rec: seq<int>,
                     ghost cells0: seq<TempList?<T>>)
      returns (ok: bool)
      requires Valid() && rec == Recorded() && slots0 == Slots() && cells0 == data[..]
      modifies Repr
      ensures Kept(old(Repr), old(data), old(tempIndexes), old(existsTemp), cells0, rec, old(size))
      ensures tempIndex == old(tempIndex)
      ensures ok <==> JournalledPresent(cells0, rec)
      ensures ok ==> SettledUpTo(slots0, rec, |rec|, commit)
    {
      var k := 0;
      assert rec[..0] == [];
      while k < tempIndex
        invariant 0 <= k <= tempIndex == old(tempIndex) == |rec|
        invariant Kept(old(Repr), old(data), old(tempIndexes), old(existsTemp), cells0, rec, old(size))
        invariant JournalledPresent(cells0, rec[..k])
        invariant SettledUpTo(slots0, rec, k, commit)
      {
        ok := SettleNext(k, commit, slots0, rec, cells0);
        if !ok {
          assert rec[k] == rec[..k + 1][k];
          return;
        }
        assert rec[..k + 1] == rec[..k] + [rec[k]];
        k := k + 1;
      }
      assert rec[..k] == rec;
      ok := true;
    }

    /** What `clearLists` keeps: the map's shape, footprint, arrays, buckets,
        journal and count. */
    ghost predicate Kept(repr0: set<object>, data0: array<TempList?<T>>, tempIndexes0: array<int>, existsTemp0: array<bool>,
                         cells0: seq<TempList?<T>>, rec: seq<int>, size0: nat)
      reads this, Repr, data, tempIndexes
    {
      Valid() && Repr == repr0 && data == data0 && tempIndexes == tempIndexes0 && existsTemp == existsTemp0 &&
      data[..] == cells0 && Recorded() == rec && size == size0
    }

    /** Every slot, as values. */
    ghost function Slots(): (r: seq<Option<ListModel<T>>>)
      reads this, data, data[..]
      ensures |r| == data.Length && forall i :: 0 <= i < data.Length ==> r[i] == Slot(i)
    {
      seq(data.Length, i reads this, data, data[..] => Slot(i))
    }

    /** The slots `slots0` with the buckets journalled in `rec[..k]` settled. */
    ghost predicate SettledUpTo(slots0: seq<Option<ListModel<T>>>, rec: seq<int>, k: nat, commit: bool)
      reads this, data, data[..]
      requires |slots0| == data.Length && k <= |rec|
    {
      forall i :: 0 <= i < data.Length ==>
        Slot(i) == if slots0[i].Some? && WellFormed(slots0[i].value) && i in rec[..k]
                   then Some(Settled(slots0[i].value, commit)) else slots0[i]
    }

    /** One turn of `clearLists`: the bucket journalled at position `k` is
        settled, unless it was detached. */
    method SettleNext(k: nat, commit: bool, ghost slots0: seq<Option<ListModel<T>>>, ghost rec: seq<int>,
                      ghost cells0: seq<TempList?<T>>)
      returns (ok: bool)
      requires Valid() && k < tempIndex && rec == Recorded() && |slots0| == data.Length && cells0 == data[..]
      requires SettledUpTo(slots0, rec, k, commit)
      modifies Repr
      ensures Kept(old(Repr), old(data), old(tempIndexes), old(existsTemp), cells0, rec, old(size))
      ensures tempIndex == old(tempIndex)
      ensures ok <==> cells0[rec[k]] != null
      ensures ok ==> SettledUpTo(slots0, rec, k + 1, commit)
    {
      var key := tempIndexes[k];
      if data[key] == null {
        return false;
      }
      ghost var before := Slot(key);
      SettleAt(key, commit);
      assert rec[..k + 1] == rec[..k] + [key];
      if before != slots0[key] {
        SettledIdempotent(slots0[key].value, commit);
      }
      ok := true;
    }

    /** `clearTemp` (commit) or `removeTemp` (roll back) on the bucket at `key`. */
    method SettleAt(key: int, commit: bool)
      requires Valid() && 0 <= key < data.Length && data[key] != null
      modifies Repr
      ensures Valid() && Repr == old(Repr)
      ensures data == old(data) && tempIndexes == old(tempIndexes) && existsTemp == old(existsTemp)
      ensures tempIndex == old(tempIndex) && size == old(size) && Recorded() == old(Recorded())
      ensures tempIndexes[..] == old(tempIndexes[..])
      ensures forall i :: 0 <= i < data.Length ==> data[i] == old(data[i])
      ensures forall i :: 0 <= i < data.Length && i != key ==> Slot(i) == old(Slot(i))
      ensures old(Slot(key)).Some? && WellFormed(old(Slot(key)).value)
      ensures Slot(key) == Some(Settled(old(Slot(key)).value, commit))
    {
      var list := data[key];
      list.ModelWellFormed();
      if commit {
        list.ClearTemp();
      } else {
        list.RemoveTemp();
      }
    }

    /** All entries of all buckets, in ascending rank order, in a new list;
        a map that created no bucket since the last clear yields a list of
        capacity 0. */
    method Complete() returns (ret: TempList<T>)
      requires Valid()
      ensures ret.Valid() && fresh(ret.Repr)
      ensures ret.elements == Joined(data.Length)
      ensures old(size) == 0 ==> ret.length == 0
    {
      if size == 0 {
        ret := new TempList.WithCapacity(0);
        JoinedOfEmpty(data.Length);
        return;
      }
      var length := 0;
      var i := 0;
      while i < data.Length
        invariant 0 <= i <= data.Length
        invariant length == |Joined(i)|
      {
        var list := data[i];
        if list != null {
          length := length + list.Size();
        }
        i := i + 1;
      }
      ret := new TempList.WithCapacity(length + 3);
      i := 0;
      while i < data.Length
        invariant 0 <= i <= data.Length
        invariant ret.Valid() && fresh(ret.Repr) && ret.length > 0
        invariant ret.elements == Joined(i)
      {
        var list := data[i];
        if list != null {
          AppendAll(ret, list);
        }
        i := i + 1;
      }
    }

    /** The inner loop of `complete`: every entry of `list`, in order, onto
        `ret`. (Java also skips null cells; a valid list has none below its
        size.) */
    static method AppendAll(ret: TempList<T>, list: TempList<T>)
      requires ret.Valid() && list.Valid() && ret.Repr !! list.Repr && ret.length > 0
      modifies ret.Repr
      ensures ret.Valid() && fresh(ret.Repr - old(ret.Repr)) && ret.length > 0
      ensures ret.elements == old(ret.elements) + list.elements
    {
      var smallSize := list.Size();
      var k := 0;
      while k < smallSize
        invariant 0 <= k <= smallSize
        invariant ret.Valid() && fresh(ret.Repr - old(ret.Repr)) && ret.length > 0
        invariant ret.Repr !! list.Repr
        invariant ret.elements == old(ret.elements) + list.elements[..k]
      {
        var entity := list.Get(k);
        var ok := ret.Add(entity);
        assert list.elements[..k + 1] == list.elements[..k] + [entity];
        k := k + 1;
      }
      assert list.elements[..smallSize] == list.elements;
    }

    lemma JoinedOfEmpty(n: nat)
      requires n <= data.Length
      requires forall i :: 0 <= i < data.Length ==> data[i] == null
      ensures Joined(n) == []
    {
      if n > 0 {
        JoinedOfEmpty(n - 1);
      }
    }

    /** Appends `e` to the bucket at `key`; the bucket operations go through the
        map so that the map's footprint stays exact. */
    method AddAt(key: int, e: T) returns (ok: bool)
      requires Valid() && 0 <= key < data.Length && data[key] != null
      modifies Repr
      ensures Valid() && fresh(Repr - old(Repr))
      ensures data == old(data) && tempIndexes == old(tempIndexes) && existsTemp == old(existsTemp)
      ensures tempIndex == old(tempIndex) && size == old(size) && Recorded() == old(Recorded())
      ensures forall i :: 0 <= i < data.Length ==> data[i] == old(data[i])
      ensures forall i :: 0 <= i < data.Length && i != key ==> Slot(i) == old(Slot(i))
      ensures ok <==> old(data[key].length) > 0
      ensures ok ==> data[key].elements == old(data[key].elements) + [e] &&
                     data[key].tempSize == old(data[key].tempSize) + 1
      ensures !ok ==> Slot(key) == old(Slot(key))
    {
      var list := data[key];
      ok := list.Add(e);
      Repr := Repr + list.Repr;
    }

    /** `removeLast` on the bucket at `key`. */
    method RemoveLastAt(key: int)
      requires Valid() && 0 <= key < data.Length && data[key] != null
      modifies Repr
      ensures Valid() && Repr == old(Repr)
      ensures data == old(data) && tempIndexes == old(tempIndexes) && existsTemp == old(existsTemp)
      ensures tempIndex == old(tempIndex) && size == old(size) && Recorded() == old(Recorded())
      ensures forall i :: 0 <= i < data.Length ==> data[i] == old(data[i])
      ensures forall i :: 0 <= i < data.Length && i != key ==> Slot(i) == old(Slot(i))
      ensures var m := old(data[key].Model());
        data[key].elements == (if m.elements != [] then m.elements[..|m.elements| - 1] else []) &&
        data[key].tempSize == (if m.tempSize > 0 then m.tempSize - 1 else 0) &&
        data[key].length == m.capacity
    {
      data[key].RemoveLast();
    }

    /** `getAndRemoveLast` on the bucket at `key`. */
    method GetAndRemoveLastAt(key: int) returns (e: T)
      requires Valid() && 0 <= key < data.Length && data[key] != null && data[key].size > 0
      modifies Repr
      ensures Valid() && Repr == old(Repr)
      ensures data == old(data) && tempIndexes == old(tempIndexes) && existsTemp == old(existsTemp)
      ensures tempIndex == old(tempIndex) && size == old(size) && Recorded() == old(Recorded())
      ensures forall i :: 0 <= i < data.Length ==> data[i] == old(data[i])
      ensures forall i :: 0 <= i < data.Length && i != key ==> Slot(i) == old(Slot(i))
      ensures var m := old(data[key].Model());
        e == m.elements[|m.elements| - 1] &&
        data[key].elements == m.elements[..|m.elements| - 1] &&
        data[key].tempSize == (if m.tempSize > 0 then m.tempSize - 1 else 0) &&
        data[key].length == m.capacity
    {
      e := data[key].GetAndRemoveLast();
    }
  }
}
