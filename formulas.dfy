/** Formula construction and the variable table (Formula.java, apart from
    evaluation). A formula is an `Entity.Formula` node of the heap; every
    operation that Java performs on `this` takes the heap and the formula's
    reference. */
module Formulas {
  import opened Wrappers
  import opened Entities

  // ---------------------------------------------------------------------
  // First-occurrence sets (the `LinkedHashSet<Character>` of the constructor)
  // ---------------------------------------------------------------------

  /** `LinkedHashSet.add`: appends `c` unless it is already present. */
  function Insert(vars: seq<char>, c: char): seq<char> {
    if c in vars then vars else vars + [c]
  }

  /** The set after adding the letters of `s` in order. */
  function InsertAll(vars: seq<char>, s: seq<char>): seq<char>
    decreases |s|
  {
    if s == [] then vars else Insert(InsertAll(vars, s[..|s| - 1]), s[|s| - 1])
  }

  ghost predicate Distinct(s: seq<char>) {
    forall i, j :: 0 <= i < j < |s| ==> s[i] != s[j]
  }

  /** Adding letters keeps the set duplicate-free, keeps what it held in front
      and holds exactly the old letters and the added ones. */
  lemma {:induction false} InsertAllProps(vars: seq<char>, s: seq<char>)
    requires Distinct(vars)
    ensures Distinct(InsertAll(vars, s))
    ensures vars <= InsertAll(vars, s)
    ensures forall c :: c in InsertAll(vars, s) <==> c in vars || c in s
    decreases |s|
  {
    if s != [] {
      var front := s[..|s| - 1];
      InsertAllProps(vars, front);
      assert forall c :: c in s <==> c in front || c == s[|s| - 1];
    }
  }

  lemma {:induction false} InsertAllAppend(vars: seq<char>, a: seq<char>, b: seq<char>)
    ensures InsertAll(vars, a + b) == InsertAll(InsertAll(vars, a), b)
    decreases |b|
  {
    if b == [] {
      assert a + b == a;
    } else {
      assert (a + b)[..|a + b| - 1] == a + b[..|b| - 1];
      InsertAllAppend(vars, a, b[..|b| - 1]);
    }
  }

  /** The position of the first occurrence of `c` in `s`. */
  function FirstIndex(s: seq<char>, c: char): (k: nat)
    requires c in s
    ensures k < |s| && s[k] == c && c !in s[..k]
  {
    if s[0] == c then 0 else 1 + FirstIndex(s[1..], c)
  }

  lemma FirstIndexAppend(s: seq<char>, x: char, c: char)
    requires c in s
    ensures FirstIndex(s + [x], c) == FirstIndex(s, c)
  {
    if s[0] != c {
      assert (s + [x])[1..] == s[1..] + [x];
      FirstIndexAppend(s[1..], x, c);
    }
  }

  /** The letters of `s` without repeats, ordered by where each first occurs. */
  lemma {:induction false} DedupFirstOccurrence(s: seq<char>)
    ensures Distinct(InsertAll([], s))
    ensures forall c :: c in InsertAll([], s) <==> c in s
    ensures forall i, j :: 0 <= i < j < |InsertAll([], s)| ==>
              FirstIndex(s, InsertAll([], s)[i]) < FirstIndex(s, InsertAll([], s)[j])
    decreases |s|
  {
    InsertAllProps([], s);
    if s != [] {
      var front, x := s[..|s| - 1], s[|s| - 1];
      assert s == front + [x];
      DedupFirstOccurrence(front);
      InsertAllProps([], front);
      var d := InsertAll([], front);
      forall c | c in d
        ensures FirstIndex(s, c) == FirstIndex(front, c)
      {
        FirstIndexAppend(front, x, c);
      }
      if x !in d {
        assert x !in front;
        assert FirstIndex(s, x) == |front| by {
          assert s[|front|] == x;
          assert x !in s[..|front|];
        }
      }
    }
  }

  /** `variableIndex` as the constructor fills it: each letter of `names`
      mapped to its position (a later duplicate would overwrite). */
  function IndexOf(names: seq<char>): (m: map<char, int>)
    ensures forall c :: c in m <==> c in names
    ensures forall c :: c in m ==> 0 <= m[c] < |names|
  {
    if names == [] then map[]
    else IndexOf(names[..|names| - 1])[names[|names| - 1] := |names| - 1]
  }

  /** The index is the inverse of the name array. */
  lemma {:induction false} IndexInverse(names: seq<char>)
    ensures Distinct(names) ==> forall i :: 0 <= i < |names| ==> IndexOf(names)[names[i]] == i
    ensures Distinct(names) ==> forall c :: c in IndexOf(names) ==> names[IndexOf(names)[c]] == c
  {
    if names != [] && Distinct(names) {
      IndexInverse(names[..|names| - 1]);
    }
  }

  // ---------------------------------------------------------------------
  // The walk of `setRoot` through nested formulas
  // ---------------------------------------------------------------------

  /** The letters the constructor and `setRoot` meet on the way through
      `list`, in walk order and with repeats. */
  function OccList(nodes: seq<Entity>, list: seq<Ref>, fuel: nat): Result<seq<char>>
    requires Closed(nodes) && Below(list, |nodes|)
    decreases fuel, |list|
  {
    if list == [] then Ok([])
    else
      var front :- OccList(nodes, list[..|list| - 1], fuel);
      var tail :- OccOne(nodes, list[|list| - 1], fuel);
      Ok(front + tail)
  }

  /** What one entity of a list contributes: a variable its letter, a nested
      formula its own list (one level of fuel deeper), functions and numbers
      nothing. */
  function OccOne(nodes: seq<Entity>, x: Ref, fuel: nat): Result<seq<char>>
    requires Closed(nodes) && x < |nodes|
    decreases fuel, 0
  {
    var e := nodes[x];
    if e.ReplaceableVariable? then Ok([e.name])
    else if e.Formula? then (if fuel == 0 then Err(OutOfFuel) else OccList(nodes, e.inOrder, fuel - 1))
    else Ok([])
  }

  /** The nested formulas the walk through `list` visits. */
  ghost function ReachList(nodes: seq<Entity>, list: seq<Ref>, fuel: nat): set<Ref>
    requires Closed(nodes) && Below(list, |nodes|)
    decreases fuel, |list|
  {
    if list == [] then {}
    else ReachList(nodes, list[..|list| - 1], fuel) + ReachOne(nodes, list[|list| - 1], fuel)
  }

  ghost function ReachOne(nodes: seq<Entity>, x: Ref, fuel: nat): set<Ref>
    requires Closed(nodes) && x < |nodes|
    decreases fuel, 0
  {
    if nodes[x].Formula? then {x} + (if fuel == 0 then {} else ReachList(nodes, nodes[x].inOrder, fuel - 1))
    else {}
  }

  /** The nested formulas of `s`, now all pointing at `root`. */
  function MarkRoots(nodes: seq<Entity>, s: set<Ref>, root: Ref): (r: seq<Entity>)
    ensures |r| == |nodes|
  {
    seq(|nodes|, i requires 0 <= i < |nodes| =>
      if i in s && nodes[i].Formula? then nodes[i].(root := Some(root)) else nodes[i])
  }

  lemma MarkRootsUnion(nodes: seq<Entity>, a: set<Ref>, b: set<Ref>, root: Ref)
    ensures MarkRoots(MarkRoots(nodes, a, root), b, root) == MarkRoots(nodes, a + b, root)
  {
  }

  /** What the walk reads of an entity: its class, a variable's letter and a
      formula's `inOrder` list (roots, caches and indices are forgotten). */
  function Skel(e: Entity): Entity {
    match e
    case Formula(_, _, _, _, _, _, _, _, _, _, _) => e.(root := None, cache := ClearedCache)
    case ReplaceableVariable(_, _, _, _) => e.(index := 0)
    case _ => e
  }

  ghost predicate SameSkeleton(a: seq<Entity>, b: seq<Entity>) {
    |a| == |b| && forall i :: 0 <= i < |a| ==> Skel(a[i]) == Skel(b[i])
  }

  /** The walk sees only the skeleton, so re-rooting, re-indexing and caching
      do not change where it goes. */
  lemma {:induction false} WalkSkeleton(a: seq<Entity>, b: seq<Entity>, list: seq<Ref>, fuel: nat)
    requires Closed(a) && Closed(b) && SameSkeleton(a, b) && Below(list, |a|)
    ensures OccList(a, list, fuel) == OccList(b, list, fuel)
    ensures ReachList(a, list, fuel) == ReachList(b, list, fuel)
    decreases fuel, |list|
  {
    if list != [] {
      WalkSkeleton(a, b, list[..|list| - 1], fuel);
      WalkSkeletonOne(a, b, list[|list| - 1], fuel);
    }
  }

  lemma {:induction false} WalkSkeletonOne(a: seq<Entity>, b: seq<Entity>, x: Ref, fuel: nat)
    requires Closed(a) && Closed(b) && SameSkeleton(a, b) && x < |a|
    ensures OccOne(a, x, fuel) == OccOne(b, x, fuel)
    ensures ReachOne(a, x, fuel) == ReachOne(b, x, fuel)
    decreases fuel, 0
  {
    assert Skel(a[x]) == Skel(b[x]);
    if a[x].Formula? && fuel > 0 {
      WalkSkeleton(a, b, a[x].inOrder, fuel - 1);
    }
  }

  lemma WalkStep(nodes: seq<Entity>, list: seq<Ref>, i: nat, fuel: nat)
    requires Closed(nodes) && Below(list, |nodes|) && i < |list|
    ensures list[..i + 1][..i] == list[..i]
    ensures ReachList(nodes, list[..i + 1], fuel) == ReachList(nodes, list[..i], fuel) + ReachOne(nodes, list[i], fuel)
    ensures OccList(nodes, list[..i], fuel).Ok? && OccOne(nodes, list[i], fuel).Ok? ==>
              OccList(nodes, list[..i + 1], fuel) == Ok(OccList(nodes, list[..i], fuel).value + OccOne(nodes, list[i], fuel).value)
    ensures OccList(nodes, list[..i], fuel).Ok? && OccOne(nodes, list[i], fuel).Err? ==>
              OccList(nodes, list[..i + 1], fuel).Err?
  {
    assert list[..i + 1][..i] == list[..i];
  }

  /** A failure part-way through the list is a failure of the whole walk. */
  lemma {:induction false} OccPrefixErr(nodes: seq<Entity>, list: seq<Ref>, k: nat, fuel: nat)
    requires Closed(nodes) && Below(list, |nodes|) && k <= |list|
    requires OccList(nodes, list[..k], fuel).Err?
    ensures OccList(nodes, list, fuel) == OccList(nodes, list[..k], fuel)
    decreases |list| - k
  {
    if k < |list| {
      assert list[..k + 1][..k] == list[..k];
      OccPrefixErr(nodes, list, k + 1, fuel);
    } else {
      assert list[..k] == list;
    }
  }

  /** The walk visits only entities of the heap. */
  lemma {:induction false} ReachBelow(nodes: seq<Entity>, list: seq<Ref>, fuel: nat)
    requires Closed(nodes) && Below(list, |nodes|)
    ensures forall r :: r in ReachList(nodes, list, fuel) ==> r < |nodes|
    decreases fuel, |list|
  {
    if list != [] {
      ReachBelow(nodes, list[..|list| - 1], fuel);
      ReachOneBelow(nodes, list[|list| - 1], fuel);
    }
  }

  lemma {:induction false} ReachOneBelow(nodes: seq<Entity>, x: Ref, fuel: nat)
    requires Closed(nodes) && x < |nodes|
    ensures forall r :: r in ReachOne(nodes, x, fuel) ==> r < |nodes|
    decreases fuel, 0
  {
    if nodes[x].Formula? && fuel > 0 {
      ReachBelow(nodes, nodes[x].inOrder, fuel - 1);
    }
  }

  lemma MarkRootsSkeleton(nodes: seq<Entity>, s: set<Ref>, root: Ref)
    ensures SameSkeleton(nodes, MarkRoots(nodes, s, root))
  {
  }

  /** `Formula.setRoot(root, vars)`: points `g` at `root`, then walks its list
      (see `SetRootAll`). */
  method SetRoot(h: Heap, g: Ref, root: Ref, vars: seq<char>, fuel: nat) returns (r: Result<seq<char>>)
    requires h.Valid() && g < |h.nodes| && h.nodes[g].Formula?
    requires root < |h.nodes| && h.nodes[root].Formula?
    modifies h
    ensures h.Valid() && SameSkeleton(old(h.nodes), h.nodes)
    ensures r.Ok? <==> OccList(old(h.nodes), old(h.nodes)[g].inOrder, fuel).Ok?
    ensures r.Err? ==> r.error == OutOfFuel
    ensures r.Ok? ==>
      r.value == InsertAll(vars, OccList(old(h.nodes), old(h.nodes)[g].inOrder, fuel).value) &&
      h.nodes == MarkRoots(old(h.nodes), {g} + ReachList(old(h.nodes), old(h.nodes)[g].inOrder, fuel), root)
    decreases fuel, 2
  {
    ghost var orig := h.nodes;
    var list := h.nodes[g].inOrder;
    h.Update(g, h.nodes[g].(root := Some(root)));
    assert h.nodes == MarkRoots(orig, {g}, root);
    MarkRootsSkeleton(orig, {g}, root);
    WalkSkeleton(orig, h.nodes, list, fuel);
    r := SetRootAll(h, list, root, vars, fuel);
    if r.Ok? {
      MarkRootsUnion(orig, {g}, ReachList(orig, list, fuel), root);
    }
  }

  /** The loop shared by the root constructor and `setRoot`: each entity of
      `list` in turn, see `SetRootOne`. */
  method SetRootAll(h: Heap, list: seq<Ref>, root: Ref, vars: seq<char>, fuel: nat) returns (r: Result<seq<char>>)
    requires h.Valid() && Below(list, |h.nodes|)
    requires root < |h.nodes| && h.nodes[root].Formula?
    modifies h
    ensures h.Valid() && SameSkeleton(old(h.nodes), h.nodes)
    ensures r.Ok? <==> OccList(old(h.nodes), list, fuel).Ok?
    ensures r.Err? ==> r.error == OutOfFuel
    ensures r.Ok? ==>
      r.value == InsertAll(vars, OccList(old(h.nodes), list, fuel).value) &&
      h.nodes == MarkRoots(old(h.nodes), ReachList(old(h.nodes), list, fuel), root)
    decreases fuel, 1
  {
    ghost var orig := h.nodes;
    var acc := vars;
    ghost var occ: seq<char> := [];
    var i := 0;
    while i < |list|
      invariant 0 <= i <= |list|
      invariant h.Valid() && SameSkeleton(orig, h.nodes)
      invariant root < |h.nodes| && h.nodes[root].Formula?
      invariant OccList(orig, list[..i], fuel) == Ok(occ)
      invariant acc == InsertAll(vars, occ)
      invariant h.nodes == MarkRoots(orig, ReachList(orig, list[..i], fuel), root)
    {
      var x := list[i];
      SetRootAdvance(orig, h.nodes, list, i, root, vars, occ, fuel);
      ghost var tail := OccOne(orig, x, fuel);
      var step := SetRootOne(h, x, root, acc, fuel);
      if step.Err? {
        return step;
      }
      acc := step.value;
      occ := occ + tail.value;
      i := i + 1;
    }
    assert list[..i] == list;
    return Ok(acc);
  }

  /** What one pass of `SetRootAll`'s loop needs: the entity reads the same in
      the partly re-rooted heap, and its walk extends the walk so far. */
  lemma SetRootAdvance(orig: seq<Entity>, cur: seq<Entity>, list: seq<Ref>, i: nat, root: Ref, vars: seq<char>,
                       occ: seq<char>, fuel: nat)
    requires Closed(orig) && Closed(cur) && SameSkeleton(orig, cur) && Below(list, |orig|) && i < |list|
    requires OccList(orig, list[..i], fuel) == Ok(occ)
    requires cur == MarkRoots(orig, ReachList(orig, list[..i], fuel), root)
    ensures OccOne(cur, list[i], fuel) == OccOne(orig, list[i], fuel)
    ensures ReachOne(cur, list[i], fuel) == ReachOne(orig, list[i], fuel)
    ensures OccOne(orig, list[i], fuel).Err? ==> OccList(orig, list, fuel).Err?
    ensures OccOne(orig, list[i], fuel).Ok? ==>
              var tail := OccOne(orig, list[i], fuel).value;
              OccList(orig, list[..i + 1], fuel) == Ok(occ + tail) &&
              InsertAll(InsertAll(vars, occ), tail) == InsertAll(vars, occ + tail) &&
              MarkRoots(cur, ReachOne(orig, list[i], fuel), root) == MarkRoots(orig, ReachList(orig, list[..i + 1], fuel), root)
  {
    WalkStep(orig, list, i, fuel);
    WalkSkeletonOne(orig, cur, list[i], fuel);
    if OccOne(orig, list[i], fuel).Err? {
      OccPrefixErr(orig, list, i + 1, fuel);
    } else {
      InsertAllAppend(vars, occ, OccOne(orig, list[i], fuel).value);
      MarkRootsUnion(orig, ReachList(orig, list[..i], fuel), ReachOne(orig, list[i], fuel), root);
    }
  }

  /** One entity of the walk: a variable adds its letter to `vars`, a nested
      formula is re-rooted together with what it holds; functions and
      numbers are skipped. */
  method SetRootOne(h: Heap, x: Ref, root: Ref, vars: seq<char>, fuel: nat) returns (r: Result<seq<char>>)
    requires h.Valid() && x < |h.nodes|
    requires root < |h.nodes| && h.nodes[root].Formula?
    modifies h
    ensures h.Valid() && SameSkeleton(old(h.nodes), h.nodes)
    ensures r.Ok? <==> OccOne(old(h.nodes), x, fuel).Ok?
    ensures r.Err? ==> r.error == OutOfFuel
    ensures r.Ok? ==>
      r.value == InsertAll(vars, OccOne(old(h.nodes), x, fuel).value) &&
      h.nodes == MarkRoots(old(h.nodes), ReachOne(old(h.nodes), x, fuel), root)
    decreases fuel, 0
  {
    var e := h.nodes[x];
    if e.ReplaceableVariable? {
      assert [e.name][..0] == [];
      return Ok(Insert(vars, e.name));
    } else if e.Formula? {
      if fuel == 0 {
        return Err(OutOfFuel);
      }
      r := SetRoot(h, x, root, vars, fuel - 1);
    } else {
      assert MarkRoots(h.nodes, {}, root) == h.nodes;
      return Ok(vars);
    }
  }

  // ---------------------------------------------------------------------
  // Construction
  // ---------------------------------------------------------------------

  /** `variableValues[i]` for letter `c`: its replacement value, else 0. */
  function ValueFor(replaced: Option<map<char, real>>, c: char): real {
    if replaced.Some? && c in replaced.value then replaced.value[c] else 0.0
  }

  /** `variableSet[i]` for letter `c`: whether a replacement value exists. */
  predicate IsReplaced(replaced: Option<map<char, real>>, c: char) {
    replaced.Some? && c in replaced.value
  }

  predicate AllSet(flags: seq<bool>) {
    forall i :: 0 <= i < |flags| ==> flags[i]
  }

  /** The distinct variable letters of a root formula, in first-occurrence
      order, nested formulas included. */
  function TableNames(nodes: seq<Entity>, inOrder: seq<Ref>, fuel: nat): Result<seq<char>>
    requires Closed(nodes) && Below(inOrder, |nodes|)
  {
    var occ :- OccList(nodes, inOrder, fuel);
    Ok(InsertAll([], occ))
  }

  /** The root formula the main constructor leaves behind, given its lists,
      the letters of its table and the optional replacement values. */
  function RootFormula(symbol: char, inOrder: seq<Ref>, inOperationOrder: seq<Ref>, lowestPriority: seq<Ref>,
                       names: seq<char>, replaced: Option<map<char, real>>): (f: Entity)
    ensures f.Formula? && TableOk(f) && f.root == None && f.cache == ClearedCache
    ensures f.precedentSymbol == symbol && f.variableNames == names
    ensures f.inOrder == inOrder && f.inOperationOrder == inOperationOrder && f.lowestPriority == lowestPriority
    ensures forall i :: 0 <= i < |names| ==>
              f.variableValues[i] == ValueFor(replaced, names[i]) &&
              (f.variableSet[i] <==> IsReplaced(replaced, names[i]))
    ensures forall c :: c in f.variableIndex <==> c in names
    ensures Distinct(names) ==> forall i :: 0 <= i < |names| ==> names[i] in f.variableIndex && f.variableIndex[names[i]] == i
    ensures f.addedVariables <==> forall i :: 0 <= i < |names| ==> IsReplaced(replaced, names[i])
  {
    IndexInverse(names);
    Formula(symbol, inOrder, inOperationOrder, lowestPriority, names,
            seq(|names|, i requires 0 <= i < |names| => ValueFor(replaced, names[i])),
            seq(|names|, i requires 0 <= i < |names| => IsReplaced(replaced, names[i])),
            IndexOf(names),
            forall i :: 0 <= i < |names| ==> IsReplaced(replaced, names[i]),
            ClearedCache, None)
  }

  /** Without replacement values a root formula is ready for evaluation
      exactly when it has no variables. */
  lemma NoValuesEnabledIffNoVariables(symbol: char, inOrder: seq<Ref>, inOperationOrder: seq<Ref>,
                                      lowestPriority: seq<Ref>, names: seq<char>)
    ensures RootFormula(symbol, inOrder, inOperationOrder, lowestPriority, names, None).addedVariables
            <==> names == []
  {
    if names != [] {
      assert !IsReplaced(None, names[0]);
    }
  }

  /** `ShortValue`: Java's `Integer.shortValue`, a 16-bit two's-complement
      truncation. */
  function ShortValue(i: int): (r: int)
    ensures -32768 <= r < 32768
    ensures -32768 <= i < 32768 ==> r == i
  {
    (i + 32768) % 65536 - 32768
  }

  /** The heap after `assignVariableIndices(list)`: each variable of `list`
      whose letter the index knows is given that letter's slot, truncated to
      a `short`. */
  function Assigned(nodes: seq<Entity>, list: seq<Ref>, index: map<char, int>): (r: seq<Entity>)
    ensures |r| == |nodes|
  {
    seq(|nodes|, i requires 0 <= i < |nodes| =>
      if i in list && nodes[i].ReplaceableVariable? && nodes[i].name in index
      then nodes[i].(index := ShortValue(index[nodes[i].name])) else nodes[i])
  }

  method AssignVariableIndices(h: Heap, list: seq<Ref>, index: map<char, int>)
    requires h.Valid() && Below(list, |h.nodes|)
    modifies h
    ensures h.Valid() && h.nodes == Assigned(old(h.nodes), list, index)
  {
    ghost var orig := h.nodes;
    var i := 0;
    while i < |list|
      invariant 0 <= i <= |list| && h.Valid()
      invariant h.nodes == Assigned(orig, list[..i], index)
    {
      assert list[..i + 1] == list[..i] + [list[i]];
      var x := list[i];
      if h.nodes[x].ReplaceableVariable? && h.nodes[x].name in index {
        h.SetIndex(x, ShortValue(index[h.nodes[x].name]));
      }
      assert forall j :: 0 <= j < |orig| ==> (j in list[..i + 1] <==> j in list[..i] || j == x);
      i := i + 1;
    }
    assert list[..i] == list;
  }

  /** The main constructor `new Formula(inOrder, …, replacedVariables, parser)`:
      allocates the formula, walks `inOrder` collecting the variable letters
      and re-rooting every nested formula it reaches, builds the table, gives
      top-level variables their slots and enables evaluation when every
      variable has a value. */
  method NewRootFormula(h: Heap, symbol: char, inOrder: seq<Ref>, inOperationOrder: seq<Ref>,
                        lowestPriority: seq<Ref>, replaced: Option<map<char, real>>, fuel: nat)
    returns (r: Result<Ref>)
    requires h.Valid()
    requires Below(inOrder, |h.nodes|) && Below(inOperationOrder, |h.nodes|) && Below(lowestPriority, |h.nodes|)
    modifies h
    ensures h.Valid()
    ensures r.Ok? <==> OccList(old(h.nodes), inOrder, fuel).Ok?
    ensures r.Err? ==> r.error == OutOfFuel
    ensures r.Ok? ==>
      var names := TableNames(old(h.nodes), inOrder, fuel).value;
      var f := RootFormula(symbol, inOrder, inOperationOrder, lowestPriority, names, replaced);
      r.value == |old(h.nodes)| &&
      h.nodes == Assigned(MarkRoots(old(h.nodes), ReachList(old(h.nodes), inOrder, fuel), r.value),
                          inOrder, f.variableIndex) + [f]
  {
    ghost var orig := h.nodes;
    var placeholder := Formula(symbol, inOrder, inOperationOrder, lowestPriority, [], [], [], map[], false, ClearedCache, None);
    var f, walked := AllocateAndWalk(h, placeholder, fuel);
    if walked.Err? {
      return Err(walked.error);
    }
    InstallTable(h, f, walked.value, replaced);
    r := Ok(f);
  }

  /** The second half of the main constructor: fills the table of the newest
      formula `f` from its letters, gives the variables of its list their
      slots and enables evaluation when every letter had a value. */
  method InstallTable(h: Heap, f: Ref, vars: seq<char>, replaced: Option<map<char, real>>)
    requires h.Valid() && f + 1 == |h.nodes| && h.nodes[f].Formula? && h.nodes[f].root == None
    requires h.nodes[f].variableNames == [] && h.nodes[f].cache == ClearedCache
    modifies h
    ensures h.Valid()
    ensures var P := old(h.nodes)[f];
      h.nodes == Assigned(old(h.nodes)[..f], P.inOrder, IndexOf(vars))
                 + [RootFormula(P.precedentSymbol, P.inOrder, P.inOperationOrder, P.lowestPriority, vars, replaced)]
  {
    ghost var before := h.nodes;
    var P := h.nodes[f];
    var target := RootFormula(P.precedentSymbol, P.inOrder, P.inOperationOrder, P.lowestPriority, vars, replaced);
    var index := WriteTable(h, f, vars, replaced);
    ghost var tabled := h.nodes;
    AssignVariableIndices(h, P.inOrder, index);
    AssignedAppend(before[..f], tabled[f], P.inOrder, index);
    var added := IsValid(h, f);
    h.Update(f, h.nodes[f].(addedVariables := added));
    assert h.nodes[f] == target;
  }

  /** The table of the newest formula `f` filled from its letters. */
  method WriteTable(h: Heap, f: Ref, vars: seq<char>, replaced: Option<map<char, real>>) returns (index: map<char, int>)
    requires h.Valid() && f + 1 == |h.nodes| && h.nodes[f].Formula? && h.nodes[f].root == None
    requires h.nodes[f].variableNames == [] && h.nodes[f].cache == ClearedCache
    modifies h
    ensures h.Valid() && index == IndexOf(vars)
    ensures var P := old(h.nodes)[f];
      h.nodes == old(h.nodes)[..f] +
        [RootFormula(P.precedentSymbol, P.inOrder, P.inOperationOrder, P.lowestPriority, vars, replaced)
           .(addedVariables := P.addedVariables)]
  {
    ghost var before := h.nodes;
    var P := h.nodes[f];
    var names, values, flags;
    names, values, flags, index := BuildTable(vars, replaced);
    var target := RootFormula(P.precedentSymbol, P.inOrder, P.inOperationOrder, P.lowestPriority, vars, replaced);
    assert values == target.variableValues && flags == target.variableSet;
    assert EntityOk(P, |h.nodes|);
    h.Update(f, P.(variableNames := names, variableValues := values, variableSet := flags, variableIndex := index));
    assert h.nodes == before[..f] + [h.nodes[f]];
  }

  /** The first half of the main constructor: allocates the formula (its table
      still empty) and runs the `setRoot` walk over its list with it as root. */
  method AllocateAndWalk(h: Heap, placeholder: Entity, fuel: nat) returns (f: Ref, walked: Result<seq<char>>)
    requires h.Valid() && placeholder.Formula? && placeholder.root == None
    requires EntityOk(placeholder, |h.nodes|)
    modifies h
    ensures h.Valid() && f == |old(h.nodes)| && |h.nodes| == f + 1
    ensures walked.Ok? <==> OccList(old(h.nodes), placeholder.inOrder, fuel).Ok?
    ensures walked.Err? ==> walked.error == OutOfFuel
    ensures walked.Ok? ==>
      walked.value == TableNames(old(h.nodes), placeholder.inOrder, fuel).value &&
      h.nodes[f] == placeholder && h.nodes[..f] == MarkRoots(old(h.nodes), ReachList(old(h.nodes), placeholder.inOrder, fuel), f)
  {
    ghost var orig := h.nodes;
    var inOrder := placeholder.inOrder;
    f := h.New(placeholder);
    ghost var grown := h.nodes;
    assert grown[..|orig|] == orig;
    WalkGrow(orig, grown, inOrder, fuel);
    ReachBelow(orig, inOrder, fuel);
    walked := SetRootAll(h, inOrder, f, [], fuel);
    if walked.Ok? {
      MarkRootsAppend(orig, placeholder, ReachList(orig, inOrder, fuel), f);
    }
  }

  lemma MarkRootsAppend(nodes: seq<Entity>, e: Entity, s: set<Ref>, root: Ref)
    requires forall r :: r in s ==> r < |nodes|
    ensures MarkRoots(nodes + [e], s, root) == MarkRoots(nodes, s, root) + [e]
  {
  }

  lemma AssignedAppend(nodes: seq<Entity>, e: Entity, list: seq<Ref>, index: map<char, int>)
    requires e.Formula?
    ensures Assigned(nodes + [e], list, index) == Assigned(nodes, list, index) + [e]
  {
  }

  /** The table loop of the main constructor: one slot per letter, holding
      its replacement value (or 0) and whether it had one, and the index of
      every letter's slot. */
  method BuildTable(vars: seq<char>, replaced: Option<map<char, real>>)
    returns (names: seq<char>, values: seq<real>, flags: seq<bool>, index: map<char, int>)
    ensures names == vars && |values| == |vars| && |flags| == |vars|
    ensures forall k :: 0 <= k < |vars| ==>
              values[k] == ValueFor(replaced, vars[k]) && (flags[k] <==> IsReplaced(replaced, vars[k]))
    ensures index == IndexOf(vars)
  {
    names, values, flags, index := [], [], [], map[];
    var idx := 0;
    while idx < |vars|
      invariant 0 <= idx <= |vars|
      invariant names == vars[..idx] && |values| == idx && |flags| == idx
      invariant forall k :: 0 <= k < idx ==> values[k] == ValueFor(replaced, vars[k]) && flags[k] == IsReplaced(replaced, vars[k])
      invariant index == IndexOf(vars[..idx])
    {
      assert vars[..idx + 1][..idx] == vars[..idx];
      names := names + [vars[idx]];
      values := values + [ValueFor(replaced, vars[idx])];
      flags := flags + [IsReplaced(replaced, vars[idx])];
      index := index[vars[idx] := idx];
      idx := idx + 1;
    }
    assert vars[..idx] == vars;
  }

  /** Appending entities does not change the walk through older ones. */
  lemma {:induction false} WalkGrow(a: seq<Entity>, b: seq<Entity>, list: seq<Ref>, fuel: nat)
    requires Closed(a) && Closed(b) && |a| <= |b| && b[..|a|] == a && Below(list, |a|)
    ensures OccList(a, list, fuel) == OccList(b, list, fuel)
    ensures ReachList(a, list, fuel) == ReachList(b, list, fuel)
    decreases fuel, |list|
  {
    if list != [] {
      WalkGrow(a, b, list[..|list| - 1], fuel);
      var r := list[|list| - 1];
      assert a[r] == b[r];
      if a[r].Formula? && fuel > 0 {
        WalkGrow(a, b, a[r].inOrder, fuel - 1);
      }
    }
  }

  /** The nested constructor `new Formula(last, inOrder, …, parser)`: an empty
      table, evaluation enabled, no root and the given preceding operator. */
  method NewNestedFormula(h: Heap, last: char, inOrder: seq<Ref>, inOperationOrder: seq<Ref>, lowestPriority: seq<Ref>)
    returns (r: Ref)
    requires h.Valid()
    requires Below(inOrder, |h.nodes|) && Below(inOperationOrder, |h.nodes|) && Below(lowestPriority, |h.nodes|)
    modifies h
    ensures h.Valid() && r == |old(h.nodes)|
    ensures h.nodes == old(h.nodes) + [Formula(last, inOrder, inOperationOrder, lowestPriority, [], [], [], map[], true, ClearedCache, None)]
  {
    r := h.New(Formula(last, inOrder, inOperationOrder, lowestPriority, [], [], [], map[], true, ClearedCache, None));
  }

  /** `clone(cloneReplacementValues)`: a new root formula over the same
      (shared) entity lists, seeded with this formula's values when asked. The
      Java map `names -> values` is built in a loop; see `ValuesMap`. Since the
      lists are shared, every nested formula the original reaches is re-rooted
      to the clone, and the shared top-level variables take the clone's slots.
      `symbol` is the precedent symbol of the new root; Java passes the
      parser's default operator, `parser.getDefaultOperator()`. */
  method Clone(h: Heap, symbol: char, f: Ref, cloneValues: bool, fuel: nat) returns (r: Result<Ref>)
    requires h.Valid() && f < |h.nodes| && h.nodes[f].Formula?
    modifies h
    ensures h.Valid()
    ensures r.Ok? <==> OccList(old(h.nodes), old(h.nodes)[f].inOrder, fuel).Ok?
    ensures r.Err? ==> r.error == OutOfFuel
    ensures r.Ok? ==>
      var F := old(h.nodes)[f];
      var names := TableNames(old(h.nodes), F.inOrder, fuel).value;
      var replaced := if cloneValues then Some(ValuesMap(F.variableNames, F.variableValues)) else None;
      var g := RootFormula(symbol, F.inOrder, F.inOperationOrder, F.lowestPriority, names, replaced);
      r.value == |old(h.nodes)| && |h.nodes| == |old(h.nodes)| + 1 && h.nodes[r.value] == g &&
      h.nodes == Assigned(MarkRoots(old(h.nodes), ReachList(old(h.nodes), F.inOrder, fuel), r.value),
                          F.inOrder, g.variableIndex) + [g]
  {
    var F := h.nodes[f];
    var replaced: Option<map<char, real>> := None;
    if cloneValues {
      var m: map<char, real> := map[];
      var i := 0;
      while i < |F.variableNames|
        invariant 0 <= i <= |F.variableNames|
        invariant m == ValuesMap(F.variableNames[..i], F.variableValues[..i])
      {
        assert F.variableNames[..i + 1][..i] == F.variableNames[..i];
        assert F.variableValues[..i + 1][..i] == F.variableValues[..i];
        m := m[F.variableNames[i] := F.variableValues[i]];
        i := i + 1;
      }
      assert F.variableNames[..i] == F.variableNames && F.variableValues[..i] == F.variableValues;
      replaced := Some(m);
    }
    r := NewRootFormula(h, symbol, F.inOrder, F.inOperationOrder, F.lowestPriority, replaced, fuel);
  }

  /** The `LinkedHashMap` of `clone(true)`: each name mapped to its value. */
  function ValuesMap(names: seq<char>, values: seq<real>): (m: map<char, real>)
    requires |names| == |values|
    ensures forall c :: c in m <==> c in names
  {
    if names == [] then map[]
    else ValuesMap(names[..|names| - 1], values[..|values| - 1])[names[|names| - 1] := values[|values| - 1]]
  }

  /** `clone(true)` keeps every value, and marks every letter the clone shares
      with the original as set, whether or not it was set before. */
  lemma {:induction false} CloneKeepsValues(names: seq<char>, values: seq<real>, c: char, i: nat)
    requires |names| == |values| && Distinct(names) && i < |names| && names[i] == c
    ensures IsReplaced(Some(ValuesMap(names, values)), c)
    ensures ValueFor(Some(ValuesMap(names, values)), c) == values[i]
  {
    var n := |names| - 1;
    if i < n {
      assert names[..n][i] == c;
      CloneKeepsValues(names[..n], values[..n], c, i);
    }
  }

  // ---------------------------------------------------------------------
  // Binding values
  // ---------------------------------------------------------------------

  /** `isValid()`: every variable has a value. */
  method IsValid(h: Heap, f: Ref) returns (r: bool)
    requires f < |h.nodes| && h.nodes[f].Formula?
    ensures r <==> AllSet(h.nodes[f].variableSet)
  {
    var flags := h.nodes[f].variableSet;
    var i := 0;
    while i < |flags|
      invariant 0 <= i <= |flags|
      invariant forall k :: 0 <= k < i ==> flags[k]
    {
      if !flags[i] {
        return false;
      }
      i := i + 1;
    }
    return true;
  }

  /** `resetCache()`: both caches invalid and zero. */
  method ResetCache(h: Heap, f: Ref)
    requires h.Valid() && f < |h.nodes| && h.nodes[f].Formula?
    modifies h
    ensures h.Valid() && h.nodes == old(h.nodes)[f := old(h.nodes)[f].(cache := ClearedCache)]
  {
    h.Update(f, h.nodes[f].(cache := ClearedCache));
  }

  /** The formula after `setVariables(values)` with enough values: the first
      `n` values bound in order, all flags set, evaluation enabled and both
      caches reset. */
  function BindAll(f: Entity, values: seq<real>): (r: Entity)
    requires f.Formula? && TableOk(f) && |values| >= |f.variableNames|
    ensures r.Formula? && TableOk(r) && SameKind(f, r) && EntityOk(r, 0) == EntityOk(f, 0)
    ensures r.variableValues == values[..|f.variableNames|] && AllSet(r.variableSet)
    ensures r.addedVariables && r.cache == ClearedCache
    ensures r.(variableValues := f.variableValues, variableSet := f.variableSet, addedVariables := f.addedVariables, cache := f.cache) == f
  {
    f.(variableValues := values[..|f.variableNames|],
       variableSet := seq(|f.variableNames|, _ => true),
       addedVariables := true, cache := ClearedCache)
  }

  /** `setVariables(values)`: too few values throw and change nothing. */
  method SetVariables(h: Heap, f: Ref, values: seq<real>) returns (o: Outcome)
    requires h.Valid() && f < |h.nodes| && h.nodes[f].Formula?
    modifies h
    ensures h.Valid()
    ensures |values| < |old(h.nodes)[f].variableNames| ==> o == Fail(TooFewValues) && h.nodes == old(h.nodes)
    ensures |values| >= |old(h.nodes)[f].variableNames| ==>
              o == Pass && h.nodes == old(h.nodes)[f := BindAll(old(h.nodes)[f], values)]
  {
    var F := h.nodes[f];
    var size := |F.variableNames|;
    if |values| < size {
      return Fail(TooFewValues);
    }
    var vals := F.variableValues;
    var flags := F.variableSet;
    var i := 0;
    while i < size
      invariant 0 <= i <= size && |vals| == size && |flags| == size
      invariant vals[..i] == values[..i] && vals[i..] == F.variableValues[i..]
      invariant forall k :: 0 <= k < i ==> flags[k]
    {
      vals := vals[i := values[i]];
      flags := flags[i := true];
      i := i + 1;
    }
    assert vals == values[..size];
    assert flags == seq(size, _ => true);
    assert EntityOk(F, |h.nodes|);
    h.Update(f, F.(variableValues := vals, variableSet := flags, addedVariables := true));
    ResetCache(h, f);
    o := Pass;
  }

  /** The formula after `setVariable(c, value)` for a letter of its table:
      that slot bound and set, evaluation enabled once every flag is set (an
      enabled formula stays enabled) and both caches reset. */
  function BindOne(f: Entity, c: char, value: real): (r: Entity)
    requires f.Formula? && TableOk(f) && c in f.variableIndex
    ensures r.Formula? && TableOk(r) && SameKind(f, r)
    ensures var i := f.variableIndex[c];
            r.variableValues == f.variableValues[i := value] && r.variableSet == f.variableSet[i := true]
    ensures r.addedVariables <==> f.addedVariables || AllSet(f.variableSet[f.variableIndex[c] := true])
    ensures r.cache == ClearedCache
    ensures r.(variableValues := f.variableValues, variableSet := f.variableSet, addedVariables := f.addedVariables, cache := f.cache) == f
  {
    var i := f.variableIndex[c];
    var flags := f.variableSet[i := true];
    f.(variableValues := f.variableValues[i := value], variableSet := flags,
       addedVariables := f.addedVariables || AllSet(flags), cache := ClearedCache)
  }

  /** `setVariable(c, value)`: a letter the table does not know changes
      nothing, not even the caches. */
  method SetVariable(h: Heap, f: Ref, c: char, value: real)
    requires h.Valid() && f < |h.nodes| && h.nodes[f].Formula?
    modifies h
    ensures h.Valid()
    ensures c !in old(h.nodes)[f].variableIndex ==> h.nodes == old(h.nodes)
    ensures c in old(h.nodes)[f].variableIndex ==> h.nodes == old(h.nodes)[f := BindOne(old(h.nodes)[f], c, value)]
  {
    var F := h.nodes[f];
    if c !in F.variableIndex {
      return;
    }
    assert EntityOk(F, |h.nodes|);
    var idx := F.variableIndex[c];
    h.Update(f, F.(variableValues := F.variableValues[idx := value], variableSet := F.variableSet[idx := true]));
    var valid := IsValid(h, f);
    if valid {
      h.Update(f, h.nodes[f].(addedVariables := true));
    }
    ResetCache(h, f);
  }

  /** The table of `f` is consistent: distinct letters, each mapped to its
      own slot. */
  ghost predicate IndexInverts(f: Entity)
    requires f.Formula?
  {
    Distinct(f.variableNames) &&
    forall i :: 0 <= i < |f.variableNames| ==>
      f.variableNames[i] in f.variableIndex && f.variableIndex[f.variableNames[i]] == i
  }

  lemma {:induction false} BindSeqFlags(f: Entity, k: nat)
    requires f.Formula? && TableOk(f) && IndexInverts(f) && k <= |f.variableNames|
    ensures |BindSeq(f, f.variableNames[..k]).variableSet| == |f.variableNames|
    ensures forall i :: 0 <= i < |f.variableNames| ==>
              BindSeq(f, f.variableNames[..k]).variableSet[i] == (i < k || f.variableSet[i])
    ensures 0 < k == |f.variableNames| ==> BindSeq(f, f.variableNames[..k]).addedVariables
    decreases k
  {
    if k > 0 {
      var names := f.variableNames[..k];
      assert names[..k - 1] == f.variableNames[..k - 1];
      BindSeqFlags(f, k - 1);
      var g := BindSeq(f, f.variableNames[..k - 1]);
      var c := names[k - 1];
      assert c == f.variableNames[k - 1];
      assert g.variableIndex[c] == k - 1;
    }
  }

  /** Binding every letter of the table with `setVariable`, one at a time,
      enables evaluation. */
  lemma BindEachEnables(f: Entity)
    requires f.Formula? && TableOk(f) && IndexInverts(f) && f.variableNames != []
    ensures BindSeq(f, f.variableNames).addedVariables
  {
    BindSeqFlags(f, |f.variableNames|);
    assert f.variableNames[..|f.variableNames|] == f.variableNames;
  }

  /** `setVariable(names[0], 0) … setVariable(names[n-1], 0)` in turn. */
  function BindSeq(f: Entity, names: seq<char>): (r: Entity)
    requires f.Formula? && TableOk(f)
    ensures r.Formula? && TableOk(r) && r.variableIndex == f.variableIndex && r.variableNames == f.variableNames
    decreases |names|
  {
    if names == [] then f
    else
      var g := BindSeq(f, names[..|names| - 1]);
      var c := names[|names| - 1];
      if c in g.variableIndex then BindOne(g, c, 0.0) else g
  }

  // ---------------------------------------------------------------------
  // The last entity (used by the `^` grouping of the parser)
  // ---------------------------------------------------------------------

  /** `getLast()`: the last entity of `inOrder`, descending through trailing
      nested formulas. An empty list throws. */
  function GetLast(nodes: seq<Entity>, f: Ref, fuel: nat): (r: Result<Ref>)
    requires Closed(nodes) && f < |nodes| && nodes[f].Formula?
    ensures r.Ok? ==> r.value < |nodes| && !nodes[r.value].Formula?
    ensures r.Err? ==> r.error == IndexOutOfBounds || r.error == OutOfFuel
    decreases fuel
  {
    var list := nodes[f].inOrder;
    if |list| == 0 then Err(IndexOutOfBounds)
    else
      var last := list[|list| - 1];
      if !nodes[last].Formula? then Ok(last)
      else if fuel == 0 then Err(OutOfFuel)
      else GetLast(nodes, last, fuel - 1)
  }

  /** A formula `setLast` may write: its last entity is not a formula. */
  ghost predicate LastIsLeaf(nodes: seq<Entity>, g: Ref)
    requires Closed(nodes) && g < |nodes|
  {
    nodes[g].Formula? && |nodes[g].inOrder| > 0 && !nodes[nodes[g].inOrder[|nodes[g].inOrder| - 1]].Formula?
  }

  datatype Step = Step(outcome: Outcome, nodes: seq<Entity>)

  /** `setLast(e)` on heap values: the deepest trailing formula gets `e` in the
      last slot of `inOrder` and then of `inOperationOrder`; an empty
      `inOperationOrder` throws after the first write, which stays. */
  function SetLastSpec(nodes: seq<Entity>, f: Ref, e: Ref, fuel: nat): (r: Step)
    requires Closed(nodes) && f < |nodes| && nodes[f].Formula? && e < |nodes|
    ensures Closed(r.nodes) && |r.nodes| == |nodes|
    ensures forall i :: 0 <= i < |nodes| ==> SameKind(nodes[i], r.nodes[i])
    ensures forall i :: 0 <= i < |nodes| && r.nodes[i] != nodes[i] ==> LastIsLeaf(nodes, i)
    ensures r.outcome.Fail? ==> r.outcome.error == IndexOutOfBounds || r.outcome.error == OutOfFuel
    decreases fuel
  {
    var F := nodes[f];
    var n := |F.inOrder|;
    if n == 0 then Step(Fail(IndexOutOfBounds), nodes)
    else
      var last := F.inOrder[n - 1];
      if nodes[last].Formula? then
        if fuel == 0 then Step(Fail(OutOfFuel), nodes) else SetLastSpec(nodes, last, e, fuel - 1)
      else
        var written := nodes[f := F.(inOrder := F.inOrder[n - 1 := e])];
        assert forall i :: 0 <= i < |nodes| && i != f ==> written[i] == nodes[i];
        var m := |F.inOperationOrder|;
        if m == 0 then Step(Fail(IndexOutOfBounds), written)
        else
          var both := nodes[f := F.(inOrder := F.inOrder[n - 1 := e], inOperationOrder := F.inOperationOrder[m - 1 := e])];
          assert forall i :: 0 <= i < |nodes| && i != f ==> both[i] == nodes[i];
          Step(Pass, both)
  }

  /** `setLast(e)`. */
  method SetLast(h: Heap, f: Ref, e: Ref, fuel: nat) returns (o: Outcome)
    requires h.Valid() && f < |h.nodes| && h.nodes[f].Formula? && e < |h.nodes|
    modifies h
    ensures h.Valid() && Step(o, h.nodes) == SetLastSpec(old(h.nodes), f, e, fuel)
    decreases fuel
  {
    var F := h.nodes[f];
    var n := |F.inOrder|;
    if n == 0 {
      return Fail(IndexOutOfBounds);
    }
    var last := F.inOrder[n - 1];
    if h.nodes[last].Formula? {
      if fuel == 0 {
        return Fail(OutOfFuel);
      }
      o := SetLast(h, last, e, fuel - 1);
      return;
    }
    assert EntityOk(F, |h.nodes|);
    h.Update(f, F.(inOrder := F.inOrder[n - 1 := e]));
    var m := |F.inOperationOrder|;
    if m == 0 {
      return Fail(IndexOutOfBounds);
    }
    h.Update(f, h.nodes[f].(inOperationOrder := F.inOperationOrder[m - 1 := e]));
    o := Pass;
  }

  /** Whenever `getLast` finds an entity, `setLast(e)` with a non-formula `e`
      makes `getLast` return `e`, even when the write to `inOperationOrder`
      then fails. */
  lemma {:induction false} SetLastThenGetLast(nodes: seq<Entity>, f: Ref, e: Ref, fuel: nat)
    requires Closed(nodes) && f < |nodes| && nodes[f].Formula? && e < |nodes| && !nodes[e].Formula?
    requires GetLast(nodes, f, fuel).Ok?
    ensures GetLast(SetLastSpec(nodes, f, e, fuel).nodes, f, fuel) == Ok(e)
    decreases fuel
  {
    var F := nodes[f];
    var last := F.inOrder[|F.inOrder| - 1];
    if nodes[last].Formula? {
      SetLastThenGetLast(nodes, last, e, fuel - 1);
      var after := SetLastSpec(nodes, last, e, fuel - 1).nodes;
      assert !LastIsLeaf(nodes, f);
      assert after[f] == nodes[f];
    }
  }
}
