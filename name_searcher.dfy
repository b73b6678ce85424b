/** The prefix index the parser consults while it reads a possible function
    name: every registered name contributes one count to each of its non-empty
    prefixes, and a prefix "exists" while its count is positive. */
module NameSearch {

  /** The counting map. */
  type Counts = map<string, int>

  /** `p` is a non-empty prefix of `name`. */
  predicate IsPrefixOf(p: string, name: string) {
    0 < |p| <= |name| && name[..|p|] == p
  }

  /** The count stored for `p`, with absent keys counting zero. */
  function Val(m: Counts, p: string): int {
    if p in m then m[p] else 0
  }

  /** Every stored count is at least one. */
  ghost predicate Positive(m: Counts) {
    forall p :: p in m ==> m[p] >= 1
  }

  /** `Map.merge(p, 1, Integer::sum)`. */
  function Merge(m: Counts, p: string): (r: Counts)
    ensures forall q :: Val(r, q) == Val(m, q) + (if q == p then 1 else 0)
    ensures Positive(m) ==> Positive(r)
  {
    m[p := Val(m, p) + 1]
  }

  /** `Map.computeIfPresent(p, (k, v) -> v == 1 ? null : v - 1)`. */
  function Decrement(m: Counts, p: string): (r: Counts)
    ensures Positive(m) ==> Positive(r)
    ensures Positive(m) ==>
      forall q :: Val(r, q) == Val(m, q) - (if q == p && Val(m, q) > 0 then 1 else 0)
  {
    if p in m then
      if m[p] == 1 then m - {p} else m[p := m[p] - 1]
    else m
  }

  /** The counts after merging the prefixes of `name` of lengths 1 to `k`. */
  function AddPrefixes(m: Counts, name: string, k: nat): Counts
    requires k <= |name|
  {
    if k == 0 then m else Merge(AddPrefixes(m, name, k - 1), name[..k])
  }

  /** The counts after decrementing the prefixes of `name` of lengths 1 to `k`. */
  function RemovePrefixes(m: Counts, name: string, k: nat): Counts
    requires k <= |name|
  {
    if k == 0 then m else Decrement(RemovePrefixes(m, name, k - 1), name[..k])
  }

  /** The index after `addName(name)`. */
  function WithName(m: Counts, name: string): Counts {
    AddPrefixes(m, name, |name|)
  }

  /** The index after `removeName(name)`. */
  function WithoutName(m: Counts, name: string): Counts {
    RemovePrefixes(m, name, |name|)
  }

  lemma PrefixOfLength(p: string, name: string, k: nat)
    requires 0 < k <= |name|
    ensures p == name[..k] <==> IsPrefixOf(p, name) && |p| == k
  {
  }

  /** Adding a name raises by one exactly the counts of its non-empty prefixes. */
  lemma {:induction false} AddPrefixesVal(m: Counts, name: string, k: nat, q: string)
    requires k <= |name|
    ensures Val(AddPrefixes(m, name, k), q)
         == Val(m, q) + (if IsPrefixOf(q, name) && |q| <= k then 1 else 0)
    ensures Positive(m) ==> Positive(AddPrefixes(m, name, k))
  {
    if k > 0 {
      AddPrefixesVal(m, name, k - 1, q);
      PrefixOfLength(q, name, k);
    }
  }

  /** Removing a name lowers by one exactly the positive counts of its prefixes. */
  lemma {:induction false} RemovePrefixesVal(m: Counts, name: string, k: nat, q: string)
    requires k <= |name| && Positive(m)
    ensures Positive(RemovePrefixes(m, name, k))
    ensures Val(RemovePrefixes(m, name, k), q)
         == Val(m, q) - (if IsPrefixOf(q, name) && |q| <= k && Val(m, q) > 0 then 1 else 0)
  {
    if k > 0 {
      RemovePrefixesVal(m, name, k - 1, q);
      PrefixOfLength(q, name, k);
    }
  }

  /** Two positive counting maps with the same counts are the same map. */
  lemma PositiveExtensional(a: Counts, b: Counts)
    requires Positive(a) && Positive(b)
    requires forall q :: Val(a, q) == Val(b, q)
    ensures a == b
  {
    assert forall q :: q in a <==> Val(a, q) > 0;
    assert forall q :: q in b <==> Val(b, q) > 0;
    assert a.Keys == b.Keys;
  }

  /** After `addName(name)` every non-empty prefix of `name` exists, and no
      other key was added. */
  lemma WithNameKeys(m: Counts, name: string)
    requires Positive(m)
    ensures Positive(WithName(m, name))
    ensures forall q :: q in WithName(m, name) <==> q in m || IsPrefixOf(q, name)
  {
    forall q
      ensures q in WithName(m, name) <==> q in m || IsPrefixOf(q, name)
    {
      AddPrefixesVal(m, name, |name|, q);
    }
    AddPrefixesVal(m, name, |name|, "");
  }

  /** `removeName` undoes `addName`: the index returns to the same counts. */
  lemma AddThenRemove(m: Counts, name: string)
    requires Positive(m)
    ensures WithoutName(WithName(m, name), name) == m
  {
    var a := WithName(m, name);
    AddPrefixesVal(m, name, |name|, "");
    forall q
      ensures Val(WithoutName(a, name), q) == Val(m, q)
    {
      AddPrefixesVal(m, name, |name|, q);
      RemovePrefixesVal(a, name, |name|, q);
    }
    RemovePrefixesVal(a, name, |name|, "");
    PositiveExtensional(WithoutName(a, name), m);
  }

  /** How many of `names` (counted with multiplicity) have `p` as a prefix. */
  function Count(names: seq<string>, p: string): nat {
    if names == [] then 0
    else (if IsPrefixOf(p, names[0]) then 1 else 0) + Count(names[1..], p)
  }

  /** `names` with its first occurrence of `n` removed. */
  function RemoveOne(names: seq<string>, n: string): (r: seq<string>)
    ensures n in names ==> |r| == |names| - 1
    ensures n !in names ==> r == names
  {
    if names == [] then []
    else if names[0] == n then names[1..]
    else [names[0]] + RemoveOne(names[1..], n)
  }

  lemma {:induction false} CountAppend(names: seq<string>, n: string, p: string)
    ensures Count(names + [n], p) == Count(names, p) + (if IsPrefixOf(p, n) then 1 else 0)
  {
    if names != [] {
      assert (names + [n])[1..] == names[1..] + [n];
      CountAppend(names[1..], n, p);
    }
  }

  lemma {:induction false} CountRemoveOne(names: seq<string>, n: string, p: string)
    requires n in names
    ensures Count(RemoveOne(names, n), p) == Count(names, p) - (if IsPrefixOf(p, n) then 1 else 0)
    ensures IsPrefixOf(p, n) ==> Count(names, p) >= 1
  {
    if names[0] != n {
      CountRemoveOne(names[1..], n, p);
      assert ([names[0]] + RemoveOne(names[1..], n))[1..] == RemoveOne(names[1..], n);
    }
  }

  /** The index `m` holds, for every prefix, the number of registered names
      (with multiplicity) that start with it, and nothing else. */
  ghost predicate Tracks(m: Counts, names: seq<string>) {
    Positive(m) && forall q :: Val(m, q) == Count(names, q)
  }

  /** A tracking index answers `exists(p)` exactly when some registered name
      starts with `p`; in particular the empty string never exists. */
  lemma {:induction false} TracksExists(m: Counts, names: seq<string>, p: string)
    requires Tracks(m, names)
    ensures p in m <==> exists n :: n in names && IsPrefixOf(p, n)
    ensures "" !in m
  {
    CountPositive(names, p);
    CountPositive(names, "");
  }

  lemma {:induction false} CountPositive(names: seq<string>, p: string)
    ensures Count(names, p) > 0 <==> exists n :: n in names && IsPrefixOf(p, n)
  {
    if names != [] {
      CountPositive(names[1..], p);
      if IsPrefixOf(p, names[0]) {
        assert names[0] in names;
      }
      assert forall n :: n in names <==> n == names[0] || n in names[1..];
    }
  }

  /** `addName` keeps the index in step with the registered names. */
  lemma AddNameTracks(m: Counts, names: seq<string>, n: string)
    requires Tracks(m, names)
    ensures Tracks(WithName(m, n), names + [n])
  {
    forall q
      ensures Val(WithName(m, n), q) == Count(names + [n], q)
    {
      AddPrefixesVal(m, n, |n|, q);
      CountAppend(names, n, q);
    }
    AddPrefixesVal(m, n, |n|, "");
  }

  /** `removeName` of a registered name keeps the index in step; the
      prefixes shared with other names survive. */
  lemma RemoveNameTracks(m: Counts, names: seq<string>, n: string)
    requires Tracks(m, names) && n in names
    ensures Tracks(WithoutName(m, n), RemoveOne(names, n))
  {
    forall q
      ensures Val(WithoutName(m, n), q) == Count(RemoveOne(names, n), q)
    {
      RemovePrefixesVal(m, n, |n|, q);
      CountRemoveOne(names, n, q);
    }
    RemovePrefixesVal(m, n, |n|, "");
  }

  class NameSearcher {
    var prefixCounts: Counts

    ghost predicate Valid()
      reads this
    {
      Positive(prefixCounts)
    }

    constructor()
      ensures Valid() && prefixCounts == map[]
    {
      prefixCounts := map[];
    }

    /** Merges one count into every non-empty prefix of `name`. */
    method AddName(name: string)
      requires Valid()
      modifies this
      ensures Valid()
      ensures prefixCounts == WithName(old(prefixCounts), name)
    {
      var sb := "";
      var i := 0;
      while i < |name|
        invariant 0 <= i <= |name|
        invariant sb == name[..i]
        invariant prefixCounts == AddPrefixes(old(prefixCounts), name, i)
      {
        sb := sb + [name[i]];
        assert sb == name[..i + 1];
        prefixCounts := Merge(prefixCounts, sb);
        i := i + 1;
      }
      AddPrefixesVal(old(prefixCounts), name, |name|, "");
    }

    /** Takes one count away from every present non-empty prefix of `name`,
        dropping a prefix whose count reaches zero. */
    method RemoveName(name: string)
      requires Valid()
      modifies this
      ensures Valid()
      ensures prefixCounts == WithoutName(old(prefixCounts), name)
    {
      var sb := "";
      var i := 0;
      while i < |name|
        invariant 0 <= i <= |name|
        invariant sb == name[..i]
        invariant prefixCounts == RemovePrefixes(old(prefixCounts), name, i)
      {
        sb := sb + [name[i]];
        assert sb == name[..i + 1];
        prefixCounts := Decrement(prefixCounts, sb);
        i := i + 1;
      }
      RemovePrefixesVal(old(prefixCounts), name, |name|, "");
    }

    /** Whether some registered name starts with `prefix`. */
    function Exists(prefix: string): (r: bool)
      reads this
      ensures Valid() ==> (r <==> Val(prefixCounts, prefix) > 0)
    {
      prefix in prefixCounts
    }

    method Clear()
      modifies this
      ensures Valid() && prefixCounts == map[]
    {
      prefixCounts := map[];
    }
  }
}
