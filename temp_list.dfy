/** The parser's growable entity buffer. Besides its contents it counts how
    many of the newest entries were added since the last commit point
    (`tempSize`), so that they can be rolled back together. */
module TempLists {
  import opened Wrappers

  /** What a list holds, as far as any reader can observe: the live entries,
      the size of the uncommitted tail and the capacity of the backing array. */
  datatype ListModel<T> = ListModel(elements: seq<T>, tempSize: nat, capacity: nat)

  ghost predicate WellFormed<T>(m: ListModel<T>) {
    m.tempSize <= |m.elements| <= m.capacity
  }

  /** The entries that survive a roll-back: the uncommitted tail is dropped. */
  function RolledBack<T>(m: ListModel<T>): (r: ListModel<T>)
    requires WellFormed(m)
    ensures WellFormed(r) && r.tempSize == 0 && r.capacity == m.capacity
    ensures r.elements <= m.elements && |r.elements| == |m.elements| - m.tempSize
  {
    ListModel(m.elements[..|m.elements| - m.tempSize], 0, m.capacity)
  }

  /** The entries after a commit: all of them, with nothing uncommitted. */
  function Committed<T>(m: ListModel<T>): (r: ListModel<T>)
    requires WellFormed(m)
    ensures WellFormed(r) && r.tempSize == 0
    ensures r.elements == m.elements && r.capacity == m.capacity
  {
    m.(tempSize := 0)
  }

  /** The capacity after one `add`: a full array is replaced by one three
      times as long. */
  function GrownCapacity(size: nat, capacity: nat): (r: nat)
    requires size <= capacity
    ensures size < capacity ==> r == capacity
    ensures size == capacity ==> r == 3 * capacity
    ensures 0 < capacity ==> size < r
  {
    if size == capacity then 3 * capacity else capacity
  }

  /** `add(e)` on a list value: Java stores past the end of a grown array of
      capacity 0 and throws. */
  function ListAdd<T>(m: ListModel<T>, e: T): (r: Result<ListModel<T>>)
    requires WellFormed(m)
    ensures r.Ok? <==> m.capacity > 0
    ensures r.Err? ==> r.error == IndexOutOfBounds
    ensures r.Ok? ==> WellFormed(r.value) && r.value.elements == m.elements + [e] && r.value.tempSize == m.tempSize + 1
    ensures r.Ok? ==> r.value.capacity >= m.capacity
  {
    if m.capacity == 0 then Err(IndexOutOfBounds)
    else Ok(ListModel(m.elements + [e], m.tempSize + 1, GrownCapacity(|m.elements|, m.capacity)))
  }

  /** `removeLast()` on a list value: each counter drops only when positive. */
  function ListRemoveLast<T>(m: ListModel<T>): (r: ListModel<T>)
    requires WellFormed(m)
    ensures WellFormed(r) && r.capacity == m.capacity
    ensures m.elements != [] ==> r.elements + [m.elements[|m.elements| - 1]] == m.elements
    ensures m.elements == [] ==> r == m
    ensures r.tempSize == if m.tempSize > 0 then m.tempSize - 1 else 0
  {
    ListModel(if m.elements == [] then [] else m.elements[..|m.elements| - 1],
              if m.tempSize > 0 then m.tempSize - 1 else 0, m.capacity)
  }

  /** `clear()` on a list value: no entries, the capacity kept. */
  function ListClear<T>(m: ListModel<T>): (r: ListModel<T>)
    ensures WellFormed(r) && r.elements == [] && r.capacity == m.capacity
  {
    ListModel([], 0, m.capacity)
  }

  /** The list after `add`ing each of `es` in turn, or the first failure. */
  function ListAddAll<T>(m: ListModel<T>, es: seq<T>): (r: Result<ListModel<T>>)
    requires WellFormed(m)
    ensures r.Ok? ==> WellFormed(r.value)
    decreases |es|
  {
    if es == [] then Ok(m)
    else
      var m' :- ListAdd(m, es[0]);
      ListAddAll(m', es[1..])
  }

  /** Entries added since a commit point are exactly what a roll-back
      removes, and what a commit keeps. */
  lemma {:induction false} RollBackUndoesAdds<T>(m: ListModel<T>, es: seq<T>)
    requires WellFormed(m) && m.capacity > 0
    ensures ListAddAll(m, es).Ok?
    ensures var r := ListAddAll(m, es).value;
            r.elements == m.elements + es && r.tempSize == m.tempSize + |es| &&
            RolledBack(r).elements == RolledBack(m).elements &&
            Committed(r).elements == m.elements + es
    decreases |es|
  {
    if es != [] {
      var m' := ListAdd(m, es[0]).value;
      RollBackUndoesAdds(m', es[1..]);
      assert m'.elements + es[1..] == m.elements + es;
      var r := ListAddAll(m, es).value;
      assert RolledBack(r).elements == r.elements[..|r.elements| - r.tempSize];
      assert |m.elements| - m.tempSize == |m'.elements| - m'.tempSize;
    }
  }

  class TempList<T> {
    var arr: array<Option<T>>
    var size: nat
    var tempSize: nat
    var length: nat
    ghost var elements: seq<T>
    ghost var Repr: set<object>

    ghost predicate Valid()
      reads this, Repr
      ensures Valid() ==> this in Repr
    {
      Repr == {this, arr} &&
      arr.Length == length && tempSize <= size <= length && |elements| == size &&
      forall i :: 0 <= i < size ==> arr[i] == Some(elements[i])
    }

    ghost function Model(): ListModel<T>
      reads this
    {
      ListModel(elements, tempSize, length)
    }

    lemma ModelWellFormed()
      requires Valid()
      ensures WellFormed(Model())
    {
    }

    /** `new TempList()`: an empty list with room for 16 entries. */
    constructor()
      ensures Valid() && fresh(Repr)
      ensures Model() == ListModel([], 0, 16)
    {
      arr := new Option<T>[16](_ => None);
      size, tempSize, length := 0, 0, 16;
      elements := [];
      Repr := {this, arr};
    }

    /** `new TempList(size)`: an empty list with room for `capacity` entries. */
    constructor WithCapacity(capacity: nat)
      ensures Valid() && fresh(Repr)
      ensures Model() == ListModel([], 0, capacity)
    {
      arr := new Option<T>[capacity](_ => None);
      size, tempSize, length := 0, 0, capacity;
      elements := [];
      Repr := {this, arr};
    }

    function IsEmpty(): (r: bool)
      reads this, Repr
      requires Valid()
      ensures r <==> elements == []
    {
      size == 0
    }

    function Size(): (r: nat)
      reads this, Repr
      requires Valid()
      ensures r == |elements|
    {
      size
    }

    /** Forgets every entry; the backing array and its cells are kept. */
    method Clear()
      requires Valid()
      modifies this
      ensures Valid() && Repr == old(Repr)
      ensures Model() == ListClear(old(Model()))
      ensures arr == old(arr)
    {
      size, tempSize := 0, 0;
      elements := [];
    }

    /** Drops the newest entry (if any) and shortens the uncommitted tail
        (if any) by one. */
    method RemoveLast()
      requires Valid()
      modifies this
      ensures Valid() && Repr == old(Repr) && arr == old(arr)
      ensures Model() == ListRemoveLast(old(Model()))
    {
      if tempSize > 0 {
        tempSize := tempSize - 1;
      }
      if size > 0 {
        size := size - 1;
        elements := elements[..size];
      }
    }

    /** Returns and drops the newest entry; Java's index -1 on an empty list is
        excluded by the requires, and every caller checks the size first. */
    method GetAndRemoveLast() returns (e: T)
      requires Valid() && size > 0
      modifies this
      ensures Valid() && Repr == old(Repr) && arr == old(arr)
      ensures e == old(elements)[old(size) - 1]
      ensures Model() == ListRemoveLast(old(Model()))
    {
      e := arr[size - 1].value;
      RemoveLast();
    }

    function GetFirst(): (r: T)
      reads this, Repr
      requires Valid() && size > 0
      ensures r == elements[0]
    {
      arr[0].value
    }

    function Get(i: nat): (r: T)
      reads this, Repr
      requires Valid() && i < size
      ensures r == elements[i]
    {
      arr[i].value
    }

    /** Appends `e` to the list and to its uncommitted tail, tripling the
        capacity when the array is full. A list of capacity 0 cannot grow
        (Java's triple of 0 is 0 and the store then fails): `ok` is false and
        nothing observable changes. */
    method Add(e: T) returns (ok: bool)
      requires Valid()
      modifies Repr
      ensures Valid() && fresh(Repr - old(Repr))
      ensures ok <==> old(length) > 0
      ensures ok ==> Model() == ListAdd(old(Model()), e).value
      ensures !ok ==> Model() == old(Model())
      ensures old(size) < old(length) ==> arr == old(arr)
    {
      if size == length {
        if length == 0 {
          return false;
        }
        var grown := new Option<T>[3 * length](_ => None);
        var i := 0;
        while i < size
          invariant 0 <= i <= size
          invariant forall j :: 0 <= j < i ==> grown[j] == arr[j]
          modifies grown
        {
          grown[i] := arr[i];
          i := i + 1;
        }
        length := 3 * length;
        arr := grown;
        Repr := {this, arr};
      }
      arr[size] := Some(e);
      size := size + 1;
      tempSize := tempSize + 1;
      elements := elements + [e];
      ok := true;
    }

    /** Commits the uncommitted tail: the entries stay. */
    method ClearTemp()
      requires Valid()
      modifies this
      ensures Valid() && Repr == old(Repr) && arr == old(arr)
      ensures Model() == Committed(old(Model()))
    {
      tempSize := 0;
    }

    /** Rolls the uncommitted tail back, clearing the cells it occupied. */
    method RemoveTemp()
      requires Valid()
      modifies this, arr
      ensures Valid() && Repr == old(Repr) && arr == old(arr)
      ensures Model() == RolledBack(old(Model()))
      ensures forall j :: size <= j < old(size) ==> arr[j] == None
    {
      var i := 0;
      while i < tempSize
        invariant 0 <= i <= tempSize == old(tempSize)
        invariant size == old(size) - i && arr == old(arr)
        invariant Repr == old(Repr) && length == old(length) && elements == old(elements)
        invariant forall j :: 0 <= j < size ==> arr[j] == old(arr[j])
        invariant forall j :: size <= j < old(size) ==> arr[j] == None
      {
        size := size - 1;
        arr[size] := None;
        i := i + 1;
      }
      elements := elements[..size];
      tempSize := 0;
    }

    /** The live entries, copied out of the backing array (what
        `Arrays.copyOf(getArray(), size())` yields). */
    method GetArray() returns (s: seq<T>)
      requires Valid()
      ensures s == elements
    {
      s := [];
      var i := 0;
      while i < size
        invariant 0 <= i <= size
        invariant s == elements[..i]
      {
        s := s + [arr[i].value];
        i := i + 1;
      }
    }
  }
}
