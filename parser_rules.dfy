/** What the parser's configuration and its scan keep true: the three char
    roles (operator, decimal comma, argument delimiter) exclude each other,
    the function registry and its prefix index agree, and scanning a formula
    only adds entities and relabels or rewires formulas, never changing a
    literal's value or a variable's letter. */
module ParserRules {
  import opened Wrappers
  import opened Entities
  import opened TempLists
  import opened TempMaps
  import opened NameSearch
  import opened Evaluation
  import opened OperatorTables
  import opened ParsingStates
  import opened Formulas
  import opened Literals

  /** `OldOperatorPair`: what `addOperator` replaced. */
  datatype OldOperator = OldOperator(impl: Option<OperatorCompute>, priority: int)

  /** The four scalar options: skip blanks, the operator assumed before a
      leading entity, the operator implied between juxtaposed entities and
      the value an empty operand reads as. */
  datatype Settings = Settings(skipEmptySpace: bool, defaultOperator: char, betweenVariables: char, defaultValue: real)

  const DefaultSettings := Settings(true, '+', '*', 0.0)

  /** The functions `initDefaults` registers, in registration order. */
  const DefaultFunctionNames: seq<string> := [
    "pi", "e", "phi", "tau", "sqrt2", "sqrt3", "ln2", "ln10", "log2e", "log10e", "inf", "nan",
    "abs", "round", "floor", "ceil", "mod", "sqrt", "pow", "exp", "log", "log10", "log2",
    "sin", "cos", "tan", "asin", "acos", "atan", "atan2", "sinh", "cosh", "tanh",
    "asinh", "acosh", "atanh", "fact", "min", "max", "avg", "sum", "median", "sign",
    "deg", "rad", "clamp", "brt", "nthroot", "hypot", "root", "bitand", "bitor", "bitxor",
    "bitnot", "shl", "shr", "sec", "csc", "cot", "normalize_angle", "wrap", "rand",
    "randint", "randrange", "seed", "noise", "dot", "cross", "length", "normalize",
    "distance", "angle", "lerp", "mix"]

  /** The operators `initDefaults` registers. */
  predicate IsDefaultOperator(c: int) {
    c == '^' as int || c == '*' as int || c == '/' as int || c == '%' as int || c == '+' as int || c == '-' as int
  }

  /** Their priorities: `^` above `* / %` above `+ -`. */
  function DefaultPriority(c: int): (p: int)
    ensures IsDefaultOperator(c) ==> p >= 0
    ensures c == '^' as int ==> p == 10
  {
    if c == '^' as int then 10
    else if c == '*' as int || c == '/' as int || c == '%' as int then 5
    else 0
  }

  /** A table with the six default operators' slots set, in the order
      `initDefaults` registers them. */
  function WithDefaults<T>(s: seq<T>, pow: T, mul: T, div: T, rem: T, add: T, sub: T): (r: seq<T>)
    requires |s| > '^' as int
    ensures |r| == |s|
  {
    s['^' as int := pow]['*' as int := mul]['/' as int := div]['%' as int := rem]['+' as int := add]['-' as int := sub]
  }

  /** Registering the defaults on empty tables makes exactly the six chars
      operators, with the default priorities. */
  lemma DefaultTables(present: seq<bool>, prio: seq<int>)
    requires |present| == |prio| > '^' as int
    requires forall c :: 0 <= c < |present| ==> !present[c] && prio[c] == 0
    ensures forall c :: 0 <= c < |present| ==>
      WithDefaults(present, true, true, true, true, true, true)[c] == IsDefaultOperator(c) &&
      WithDefaults(prio, 10, 5, 5, 5, 0, 0)[c] == DefaultPriority(c)
  {
  }

  lemma DefaultImpls<T>(impl: seq<T>, ops: char -> T)
    requires |impl| > '^' as int
    ensures forall c: char :: IsDefaultOperator(c as int) ==>
      WithDefaults(impl, ops('^'), ops('*'), ops('/'), ops('%'), ops('+'), ops('-'))[c as int] == ops(c)
  {
  }

  /** `Math.max(priority, 0)`. */
  function ClampPriority(p: int): (r: int)
    ensures r >= 0 && r >= p
    ensures p >= 0 ==> r == p
    ensures p < 0 ==> r == 0
  {
    if p > 0 then p else 0
  }

  /** The operator arrays agree with each other and the roles are exclusive:
      every present operator has an implementation and a priority of at
      least 0, an absent slot a priority of at least -1 (0 when never set,
      -1 after `removeOperator`), and a char is at most one of operator,
      comma and delimiter. */
  ghost predicate RolesOk(impl: seq<Option<OperatorCompute>>, prio: seq<int>, present: seq<bool>,
                          commas: seq<bool>, delims: seq<bool>) {
    |impl| == |prio| && |present| == |prio| && |commas| == |prio| && |delims| == |prio| &&
    NonNegative(present, prio) &&
    (forall c :: 0 <= c < |prio| ==> prio[c] >= -1) &&
    (forall c :: 0 <= c < |present| ==> (present[c] <==> impl[c].Some?)) &&
    (forall c :: 0 <= c < |commas| && commas[c] ==> !present[c] && !delims[c]) &&
    (forall c :: 0 <= c < |delims| && delims[c] ==> !present[c])
  }

  /** Making a char that is neither comma nor delimiter an operator keeps
      the roles consistent. */
  lemma RolesAdd(impl: seq<Option<OperatorCompute>>, prio: seq<int>, present: seq<bool>,
                 commas: seq<bool>, delims: seq<bool>, k: nat, compute: OperatorCompute, p: int)
    requires RolesOk(impl, prio, present, commas, delims) && k < |prio| && !commas[k] && !delims[k] && p >= 0
    ensures RolesOk(impl[k := Some(compute)], prio[k := p], present[k := true], commas, delims)
  {
  }

  /** Removing an operator keeps the roles consistent. */
  lemma RolesRemove(impl: seq<Option<OperatorCompute>>, prio: seq<int>, present: seq<bool>,
                    commas: seq<bool>, delims: seq<bool>, k: nat)
    requires RolesOk(impl, prio, present, commas, delims) && k < |prio|
    ensures RolesOk(impl[k := None], prio[k := -1], present[k := false], commas, delims)
  {
  }

  /** Any priority of at least 0 may be stored for any char. */
  lemma RolesPriority(impl: seq<Option<OperatorCompute>>, prio: seq<int>, present: seq<bool>,
                      commas: seq<bool>, delims: seq<bool>, k: nat, p: int)
    requires RolesOk(impl, prio, present, commas, delims) && k < |prio| && p >= 0
    ensures RolesOk(impl, prio[k := p], present, commas, delims)
  {
  }

  ghost predicate DistinctNames(names: seq<string>) {
    forall i, j :: 0 <= i < j < |names| ==> names[i] != names[j]
  }

  /** The registry: the prefix index counts exactly the registered names,
      each registered once. */
  ghost predicate RegistryOk(functions: map<string, FunctionCompute>, names: seq<string>, counts: Counts) {
    Tracks(counts, names) && (forall n :: n in functions <==> n in names) && DistinctNames(names)
  }

  /** Removing a registered name from a list of distinct names removes that
      name and no other. */
  lemma {:induction false} RemoveOneDistinct(names: seq<string>, n: string)
    requires DistinctNames(names)
    ensures DistinctNames(RemoveOne(names, n))
    ensures forall x :: x in RemoveOne(names, n) <==> x in names && x != n
  {
    if names != [] {
      assert DistinctNames(names[1..]) by {
        forall i, j | 0 <= i < j < |names[1..]|
          ensures names[1..][i] != names[1..][j]
        {
          assert names[1..][i] == names[i + 1] && names[1..][j] == names[j + 1];
        }
      }
      RemoveOneDistinct(names[1..], n);
      assert forall x :: x in names <==> x == names[0] || x in names[1..];
      if names[0] != n {
        var rest := RemoveOne(names[1..], n);
        assert names[0] !in names[1..] by {
          forall k | 0 <= k < |names[1..]|
            ensures names[1..][k] != names[0]
          {
            assert names[1..][k] == names[k + 1];
          }
        }
        forall i, j | 0 <= i < j < |[names[0]] + rest|
          ensures ([names[0]] + rest)[i] != ([names[0]] + rest)[j]
        {
          if i == 0 {
            assert ([names[0]] + rest)[j] == rest[j - 1];
            assert rest[j - 1] in rest;
          } else {
            assert ([names[0]] + rest)[i] == rest[i - 1] && ([names[0]] + rest)[j] == rest[j - 1];
          }
        }
      } else {
        assert names[0] !in names[1..] by {
          forall k | 0 <= k < |names[1..]|
            ensures names[1..][k] != names[0]
          {
            assert names[1..][k] == names[k + 1];
          }
        }
      }
    }
  }

  /** An error no formula text triggers by itself: a journal or bucket
      overflow, a null bucket, a walk out of fuel. */
  predicate Internal(e: Error) {
    e == IndexOutOfBounds || e == NullReference || e == OutOfFuel
  }

  // ---------------------------------------------------------------------
  // What parsing keeps of the heap
  // ---------------------------------------------------------------------

  /** An entity keeps its class and its value (a literal's number, a
      variable's letter). */
  predicate KeptAt(x: Entity, y: Entity) {
    SameKind(x, y) && ValueOf(x) == ValueOf(y)
  }

  /** The heap only grew, and no entity changed class or value. */
  ghost predicate Keeps(a: seq<Entity>, b: seq<Entity>) {
    |a| <= |b| && forall i :: 0 <= i < |a| ==> KeptAt(a[i], b[i])
  }

  /** The heap only grew, and only formulas changed. */
  ghost predicate LeavesKept(a: seq<Entity>, b: seq<Entity>) {
    |a| <= |b| && forall i :: 0 <= i < |a| && !a[i].Formula? ==> b[i] == a[i]
  }

  lemma KeepsRefl(a: seq<Entity>)
    ensures Keeps(a, a) && LeavesKept(a, a)
  {
  }

  lemma KeepsTrans(a: seq<Entity>, b: seq<Entity>, c: seq<Entity>)
    requires Keeps(a, b) && Keeps(b, c)
    ensures Keeps(a, c)
  {
    forall i | 0 <= i < |a|
      ensures KeptAt(a[i], c[i])
    {
      assert KeptAt(a[i], b[i]) && KeptAt(b[i], c[i]);
    }
  }

  lemma LeavesTrans(a: seq<Entity>, b: seq<Entity>, c: seq<Entity>)
    requires LeavesKept(a, b) && LeavesKept(b, c) && Keeps(a, b)
    ensures LeavesKept(a, c)
  {
    forall i | 0 <= i < |a| && !a[i].Formula?
      ensures c[i] == a[i]
    {
      assert KeptAt(a[i], b[i]);
    }
  }

  lemma KeepsAppend(a: seq<Entity>, e: Entity)
    ensures Keeps(a, a + [e]) && LeavesKept(a, a + [e])
  {
    forall i | 0 <= i < |a|
      ensures (a + [e])[i] == a[i]
    {
    }
  }

  lemma KeepsSymbol(a: seq<Entity>, r: Ref, c: char)
    requires r < |a|
    ensures Keeps(a, a[r := WithSymbol(a[r], c)])
  {
    var b := a[r := WithSymbol(a[r], c)];
    forall i | 0 <= i < |a|
      ensures KeptAt(a[i], b[i])
    {
      if i == r {
        assert b[i].(precedentSymbol := a[i].precedentSymbol) == a[i];
      }
    }
  }

  /** Re-rooting and re-indexing touch only roots and slots. */
  lemma KeepsRooted(nodes: seq<Entity>, s: set<Ref>, root: Ref, list: seq<Ref>, index: map<char, int>, f: Entity)
    ensures Keeps(nodes, Assigned(MarkRoots(nodes, s, root), list, index) + [f])
  {
    var m := MarkRoots(nodes, s, root);
    var b := Assigned(m, list, index) + [f];
    forall i | 0 <= i < |nodes|
      ensures KeptAt(nodes[i], b[i])
    {
      assert m[i] == if i in s && nodes[i].Formula? then nodes[i].(root := Some(root)) else nodes[i];
      assert b[i] == Assigned(m, list, index)[i];
    }
  }

  /** `setLast` rewires formulas only. */
  lemma KeepsSetLast(nodes: seq<Entity>, f: Ref, e: Ref, fuel: nat)
    requires Closed(nodes) && f < |nodes| && nodes[f].Formula? && e < |nodes|
    ensures Keeps(nodes, SetLastSpec(nodes, f, e, fuel).nodes)
    ensures LeavesKept(nodes, SetLastSpec(nodes, f, e, fuel).nodes)
  {
    var b := SetLastSpec(nodes, f, e, fuel).nodes;
    forall i | 0 <= i < |nodes|
      ensures KeptAt(nodes[i], b[i]) && (!nodes[i].Formula? ==> b[i] == nodes[i])
    {
      assert SameKind(nodes[i], b[i]);
      if b[i] != nodes[i] {
        assert LastIsLeaf(nodes, i);
      }
    }
  }

  // ---------------------------------------------------------------------
  // References a scope holds
  // ---------------------------------------------------------------------

  /** Every bucket entry names an entity below `n`. */
  ghost predicate BucketsBelow(m: MapModel<Ref>, n: nat) {
    forall i :: 0 <= i < |m.slots| && m.slots[i].Some? ==> Below(m.slots[i].value.elements, n)
  }

  lemma RefsGrow(f: Fields, n: nat, k: nat)
    requires RefsIn(f, n) && n <= k
    ensures RefsIn(f, k)
  {
  }

  /** A bucket that only lost entries or gained entries below `n` keeps
      every entry below `n`. */
  lemma BucketsAfterAdd(m: MapModel<Ref>, key: int, e: Ref, n: nat)
    requires MapWellFormed(m) && BucketsBelow(m, n) && e < n && MapAdd(m, key, e).Ok?
    ensures BucketsBelow(MapAdd(m, key, e).value, n)
  {
    var r := MapAdd(m, key, e).value;
    forall i | 0 <= i < |r.slots| && r.slots[i].Some?
      ensures Below(r.slots[i].value.elements, n)
    {
      if i != key {
        assert r.slots[i] == m.slots[i];
      }
    }
  }

  lemma BucketsAfterSettle(m: MapModel<Ref>, commit: bool, n: nat)
    requires MapWellFormed(m) && BucketsBelow(m, n) && MapSettle(m, commit).Ok?
    ensures BucketsBelow(MapSettle(m, commit).value, n)
  {
    var r := MapSettle(m, commit).value;
    forall i | 0 <= i < |r.slots| && r.slots[i].Some?
      ensures Below(r.slots[i].value.elements, n)
    {
      MapSettleSlots(m, commit, i);
    }
  }

  lemma RefsDumped(f: Fields, n: nat)
    requires StateOk(f) && RefsIn(f, n) && Dumped(f).Ok?
    ensures RefsIn(Dumped(f).value, n)
  {
    BucketsAfterSettle(f.inOperationOrder, true, n);
  }

  lemma RefsRolledBack(f: Fields, n: nat)
    requires StateOk(f) && RefsIn(f, n) && RolledBackState(f).Ok?
    ensures RefsIn(RolledBackState(f).value, n)
  {
    BucketsAfterSettle(f.inOperationOrder, false, n);
  }

  /** The joined buckets hold only entries the buckets held. */
  lemma {:induction false} JoinedBelow(slots: seq<Option<ListModel<Ref>>>, n: nat, k: nat)
    requires n <= |slots|
    requires forall i :: 0 <= i < |slots| && slots[i].Some? ==> Below(slots[i].value.elements, k)
    ensures Below(MapJoined(slots, n), k)
  {
    if n > 0 {
      JoinedBelow(slots, n - 1, k);
    }
  }

  /** `a ^ b` as `groupAddition` builds it: both lists hold the two
      operands, no lowest-priority list; a nested formula. */
  function PowFormula(a: Ref, b: Ref): (f: Entity)
    ensures f.Formula? && f.precedentSymbol == '^' && f.inOrder == [a, b] && f.inOperationOrder == [a, b]
    ensures f.lowestPriority == [] && f.root.None?
  {
    Formula('^', [a, b], [a, b], [], [], [], [], map[], true, ClearedCache, None)
  }

  /** A new entity whose references point into the heap keeps it closed. */
  lemma ClosedAppend(nodes: seq<Entity>, e: Entity)
    requires Closed(nodes) && EntityOk(e, |nodes|) && RootOk(nodes, e)
    ensures Closed(nodes + [e])
  {
    var b := nodes + [e];
    forall i | 0 <= i < |b|
      ensures EntityOk(b[i], |b|) && RootOk(b, b[i])
    {
      var x := b[i];
      assert EntityOk(x, |nodes|) && RootOk(nodes, x);
      match x
      case Function(_, params, _) =>
        assert Below(params, |b|);
      case Formula(_, inOrder, ops, lowest, _, _, _, _, _, _, root) =>
        assert Below(inOrder, |b|) && Below(ops, |b|) && Below(lowest, |b|);
      case _ =>
    }
  }

  /** `groupAddition` when the left operand `e2` is a formula: `getLast(e2) ^ e1`
      is built and becomes the last entity of `e2`'s deepest trailing
      formula, so a chain of powers nests to the right. */
  function GroupedIntoFormula(nodes: seq<Entity>, e2: Ref, e1: Ref, fuel: nat): (r: Result<Step>)
    requires Closed(nodes) && e2 < |nodes| && nodes[e2].Formula? && e1 < |nodes|
    ensures r.Err? ==> r.error == IndexOutOfBounds || r.error == OutOfFuel
    ensures r.Ok? ==> Closed(r.value.nodes) && |r.value.nodes| == |nodes| + 1
    ensures r.Ok? ==> Keeps(nodes, r.value.nodes) && LeavesKept(nodes, r.value.nodes)
    ensures r.Ok? ==> r.value.outcome.Fail? ==> r.value.outcome.error == IndexOutOfBounds || r.value.outcome.error == OutOfFuel
    ensures r.Ok? ==> r.value.nodes[|nodes|].Formula? && r.value.nodes[e2].Formula?
  {
    var gl :- GetLast(nodes, e2, fuel);
    var p := PowFormula(gl, e1);
    var grown := nodes + [p];
    ClosedAppend(nodes, p);
    var step := SetLastSpec(grown, e2, |nodes|, fuel);
    KeepsAppend(nodes, p);
    KeepsSetLast(grown, e2, |nodes|, fuel);
    KeepsTrans(nodes, grown, step.nodes);
    LeavesTrans(nodes, grown, step.nodes);
    assert SameKind(grown[|nodes|], step.nodes[|nodes|]) && SameKind(grown[e2], step.nodes[e2]);
    Ok(step)
  }

  /** `t` is what `s` ends with. */
  ghost predicate EndsWith<T>(s: seq<T>, t: seq<T>) {
    |t| <= |s| && s[|s| - |t|..] == t
  }

  /** The entity `toAdd` that stands for `e2 ^ e1` on the heap `after`,
      grown from `before`: `e2` itself when it is a formula (which now holds
      the power inside), and otherwise a new formula appended to the heap. */
  ghost predicate PowerBuilt(before: seq<Entity>, after: seq<Entity>, e2: Ref, e1: Ref, toAdd: Ref) {
    Closed(before) && e2 < |before| && e1 < |before| && toAdd < |after| &&
    (before[e2].Formula? ==>
       toAdd == e2 && GroupedIntoFormula(before, e2, e1, |before|) == Ok(Step(Pass, after))) &&
    (!before[e2].Formula? ==>
       toAdd == |before| && after == before + [PowFormula(e2, e1)])
  }

  /** What grouping the last two entries `e2`, `e1` of bucket `k` leaves:
      the bucket ends with `e2` itself when it is a formula (which now holds
      the power inside), and otherwise with the new formula `e2 ^ e1`; no
      other bucket changes. */
  ghost predicate Grouped(m: MapModel<Ref>, s: MapModel<Ref>, k: int, before: seq<Entity>, after: seq<Entity>)
  {
    Closed(before) &&
    0 <= k < |m.slots| && m.slots[k].Some? && |m.slots[k].value.elements| >= 3 &&
    Below(m.slots[k].value.elements, |before|) &&
    |s.slots| == |m.slots| && s.slots[k].Some? && s.journal == m.journal && s.size == m.size &&
    (forall i :: 0 <= i < |m.slots| && i != k ==> s.slots[i] == m.slots[i]) &&
    var es := m.slots[k].value.elements;
    var n := |es|;
    var e1, e2 := es[n - 1], es[n - 2];
    (before[e2].Formula? ==>
       s.slots[k].value.elements == es[..n - 1] &&
       GroupedIntoFormula(before, e2, e1, |before|) == Ok(Step(Pass, after))) &&
    (!before[e2].Formula? ==>
       s.slots[k].value.elements == es[..n - 2] + [|before|] &&
       after == before + [PowFormula(e2, e1)])
  }

  lemma GroupedIntro(m: MapModel<Ref>, k: int, l: ListModel<Ref>, toAdd: Ref, before: seq<Entity>, after: seq<Entity>)
    requires MapWellFormed(m) && Closed(before) && WellFormed(l)
    requires 0 <= k < |m.slots| && m.slots[k].Some? && |m.slots[k].value.elements| >= 3
    requires Below(m.slots[k].value.elements, |before|)
    requires var es := m.slots[k].value.elements; var n := |es|;
      l.elements == es[..n - 2] + [toAdd] &&
      (before[es[n - 2]].Formula? ==>
         toAdd == es[n - 2] && GroupedIntoFormula(before, es[n - 2], es[n - 1], |before|) == Ok(Step(Pass, after))) &&
      (!before[es[n - 2]].Formula? ==>
         toAdd == |before| && after == before + [PowFormula(es[n - 2], es[n - 1])])
    ensures Grouped(m, WithSlot(m, k, l), k, before, after)
  {
    var es := m.slots[k].value.elements;
    var n := |es|;
    if toAdd == es[n - 2] {
      assert es[..n - 2] + [es[n - 2]] == es[..n - 1];
    }
  }

  /** A bucket after `removeLast`. */
  function Dropped(es: seq<Ref>): (r: seq<Ref>)
    ensures es != [] ==> r + [es[|es| - 1]] == es
    ensures es == [] ==> r == []
  {
    if es == [] then [] else es[..|es| - 1]
  }

  /** The entries of the bucket at `key`, none when it is absent. */
  function Bucket(m: MapModel<Ref>, key: int): (r: seq<Ref>)
    ensures 0 <= key < |m.slots| && m.slots[key].Some? ==> r == m.slots[key].value.elements
  {
    if 0 <= key < |m.slots| && m.slots[key].Some? then m.slots[key].value.elements else []
  }

  /** The start of the third rule on map values: the bucket at `key`
      (created when missing) loses its last entry; no other bucket changes. */
  function MapDetachLast(m: MapModel<Ref>, key: int): (r: Result<MapModel<Ref>>)
    requires MapWellFormed(m)
    ensures r.Ok? <==> MapGetOrAdd(m, key).Ok?
    ensures r.Err? ==> r.error == IndexOutOfBounds
    ensures r.Ok? ==> (MapWellFormed(r.value) && |r.value.slots| == |m.slots| && 0 <= key < |m.slots| &&
      r.value.journal == MapGetOrAdd(m, key).value.journal && r.value.size == MapGetOrAdd(m, key).value.size &&
      r.value.slots[key].Some? && r.value.slots[key].value.elements == Dropped(Bucket(m, key)) &&
      forall i :: 0 <= i < |m.slots| && i != key ==> r.value.slots[i] == m.slots[i])
  {
    var g :- MapGetOrAdd(m, key);
    Ok(WithSlot(g, key, ListRemoveLast(g.slots[key].value)))
  }

  /** Detaching the last entry of a bucket keeps a state's shape and bound. */
  lemma FieldsDetached(f: Fields, key: int, n: nat)
    requires StateOk(f) && RefsIn(f, n) && MapDetachLast(f.inOperationOrder, key).Ok?
    ensures StateOk(f.(inOperationOrder := MapDetachLast(f.inOperationOrder, key).value))
    ensures RefsIn(f.(inOperationOrder := MapDetachLast(f.inOperationOrder, key).value), n)
    ensures Below(Bucket(f.inOperationOrder, key), n)
  {
    BucketsDetached(f.inOperationOrder, key, n);
  }

  lemma BucketsDetached(m: MapModel<Ref>, key: int, n: nat)
    requires MapWellFormed(m) && BucketsBelow(m, n) && MapDetachLast(m, key).Ok?
    ensures BucketsBelow(MapDetachLast(m, key).value, n) && Below(Bucket(m, key), n)
  {
    var r := MapDetachLast(m, key).value;
    forall i | 0 <= i < |r.slots| && r.slots[i].Some?
      ensures Below(r.slots[i].value.elements, n)
    {
      if i != key {
        assert r.slots[i] == m.slots[i];
      }
    }
  }

  /** The heap after the third rule's relabelling: when the last bucket `es`
      keeps an entry after losing its last one, and its priority is not 0,
      its first entry takes `lastOperation` as preceding operator. */
  function Relabelled(nodes: seq<Entity>, es: seq<Ref>, priority: int, lastOperation: char): (r: seq<Entity>)
    requires Below(es, |nodes|)
    ensures |r| == |nodes|
    ensures forall i :: 0 <= i < |nodes| && (|es| < 2 || priority <= 0 || i != es[0]) ==> r[i] == nodes[i]
    ensures |es| >= 2 && priority > 0 ==> r[es[0]] == WithSymbol(nodes[es[0]], lastOperation)
  {
    if |es| >= 2 && priority > 0 then nodes[es[0] := WithSymbol(nodes[es[0]], lastOperation)] else nodes
  }

  /** The end of the third rule on map values: the bucket at `key` (which
      exists) receives `last`, when there is one, and then `e`. */
  function AddPair(m: MapModel<Ref>, key: int, last: Option<Ref>, e: Ref): (r: Result<MapModel<Ref>>)
    requires MapWellFormed(m)
    ensures r.Err? ==> r.error == IndexOutOfBounds
    ensures r.Ok? ==> MapWellFormed(r.value) && |r.value.slots| == |m.slots| && 0 <= key < |m.slots|
    ensures r.Ok? ==> (r.value.slots[key].Some? &&
      r.value.slots[key].value.elements ==
        (if m.slots[key].Some? then m.slots[key].value.elements else []) + (if last.Some? then [last.value, e] else [e]))
    ensures r.Ok? ==> forall i :: 0 <= i < |m.slots| && i != key ==> r.value.slots[i] == m.slots[i]
  {
    var m' :- if last.Some? then MapAdd(m, key, last.value) else Ok(m);
    MapAdd(m', key, e)
  }

  lemma BucketsAfterPair(m: MapModel<Ref>, key: int, last: Option<Ref>, e: Ref, n: nat)
    requires MapWellFormed(m) && BucketsBelow(m, n) && e < n && (last.Some? ==> last.value < n)
    requires MapGetOrAdd(m, key).Ok? && AddPair(MapGetOrAdd(m, key).value, key, last, e).Ok?
    ensures BucketsBelow(AddPair(MapGetOrAdd(m, key).value, key, last, e).value, n)
  {
    var g := MapGetOrAdd(m, key).value;
    var r := AddPair(g, key, last, e).value;
    forall i | 0 <= i < |r.slots| && r.slots[i].Some?
      ensures Below(r.slots[i].value.elements, n)
    {
      if i != key {
        assert r.slots[i] == g.slots[i] == m.slots[i];
      }
    }
  }

  lemma EndsWithAppend<T>(s: seq<T>, t: seq<T>)
    ensures EndsWith(s + t, t)
  {
    assert (s + t)[|s + t| - |t|..] == t;
  }

  /** What the third rule appends to the bucket of the new operator's rank. */
  function Pair(last: Option<Ref>, e: Ref): (r: seq<Ref>)
    ensures r != [] && r[|r| - 1] == e
  {
    if last.Some? then [last.value, e] else [e]
  }

  /** The map after the third rule moved the last entity from the bucket of
      rank `k1` to the one of the higher priority's rank `k2`, followed by `e`:
      only those two buckets change. */
  ghost predicate HigherPlaced(m: MapModel<Ref>, s: MapModel<Ref>, k1: int, k2: int, last: Option<Ref>, e: Ref) {
    0 <= k2 < k1 < |m.slots| && |s.slots| == |m.slots| && s.slots[k1].Some? && s.slots[k2].Some? &&
    (forall i :: 0 <= i < |s.slots| && i != k1 && i != k2 ==> s.slots[i] == m.slots[i]) &&
    s.slots[k1].value.elements == Dropped(Bucket(m, k1)) &&
    EndsWith(s.slots[k2].value.elements, Pair(last, e))
  }

  lemma HigherPlacedIntro(m: MapModel<Ref>, k1: int, k2: int, last: Option<Ref>, e: Ref)
    requires MapWellFormed(m) && 0 <= k2 < k1 && MapDetachLast(m, k1).Ok?
    requires MapGetOrAdd(MapDetachLast(m, k1).value, k2).Ok?
    requires AddPair(MapGetOrAdd(MapDetachLast(m, k1).value, k2).value, k2, last, e).Ok?
    ensures HigherPlaced(m, AddPair(MapGetOrAdd(MapDetachLast(m, k1).value, k2).value, k2, last, e).value, k1, k2, last, e)
  {
    var g := MapGetOrAdd(MapDetachLast(m, k1).value, k2).value;
    var s := AddPair(g, k2, last, e).value;
    EndsWithAppend(if g.slots[k2].Some? then g.slots[k2].value.elements else [], Pair(last, e));
  }

  lemma EndsWithLast<T>(s: seq<T>, t: seq<T>)
    requires EndsWith(s, t) && t != []
    ensures EndsWith(s, [t[|t| - 1]])
  {
    assert s[|s| - 1..] == s[|s| - |t|..][|t| - 1..];
  }

  /** What `groupAddition` does after two powers: a rank outside the map or
      a missing bucket throws; a bucket of fewer than three entries stays as
      it is; otherwise its last two entries are grouped. */
  ghost predicate PowerGrouping(o: Outcome, k: int, m: MapModel<Ref>, s: MapModel<Ref>, before: seq<Entity>, after: seq<Entity>)
  {
    (!(0 <= k < |m.slots|) ==> o == Fail(IndexOutOfBounds)) &&
    (0 <= k < |m.slots| && m.slots[k].None? ==> o == Fail(NullReference)) &&
    (0 <= k < |m.slots| && m.slots[k].Some? && |m.slots[k].value.elements| < 3 ==>
       o.Pass? && s == m && after == before) &&
    (o.Pass? && 0 <= k < |m.slots| && m.slots[k].Some? && |m.slots[k].value.elements| >= 3 ==>
       Grouped(m, s, k, before, after))
  }

  /** `after` differs from `before` at most in what placing an entity
      touches (the entity lists, the last operator, priority and entity),
      and, when `reset`, in the pending literal and operator. */
  ghost predicate PlacedOnly(before: Fields, after: Fields, reset: bool) {
    after.(inOrder := before.inOrder, inOperationOrder := before.inOperationOrder,
           lastAddedEntity := before.lastAddedEntity, lastOperation := before.lastOperation,
           lastOperationPriority := before.lastOperationPriority)
      == if reset then AfterReset(before) else before
  }

  /** The formula `F` closing a scope in state `before`: its lowest-priority
      list is the detached bucket of the highest rank, its operation order
      the other buckets joined in rank order, and the scope keeps the map
      without that bucket. */
  ghost predicate FormulaOfScope(before: Fields, after: Fields, F: Entity)
    requires MapWellFormed(before.inOperationOrder)
  {
    var split := MapGetAndRemoveLast(before.inOperationOrder);
    F.Formula? && after.inOperationOrder == split.1 &&
    F.lowestPriority == (if split.0.Some? then split.0.value.elements else []) &&
    F.inOperationOrder == MapJoined(split.1.slots, |split.1.slots|)
  }

  lemma PlacedTrans(f0: Fields, f1: Fields, f2: Fields, reset: bool)
    requires PlacedOnly(f0, f1, false) && PlacedOnly(f1, f2, reset)
    ensures PlacedOnly(f0, f2, reset)
  {
  }

  /** Some registered function is called `p` or starts with it: the name
      scan keeps `p` exactly then. */
  ghost predicate NamePrefix(functions: map<string, FunctionCompute>, p: string) {
    exists n :: n in functions && (n == p || IsPrefixOf(p, n))
  }

  /** The literal a char opens when none is pending: 0, or the default value
      while nothing was read in the scope (Java's `started`); a minus opens
      none, it only flips the sign. */
  function LiteralOpened(f: Fields, c: char, defaultValue: real): Fields {
    if f.currentValue.Some? then f
    else f.(currentValue := Some(if !f.started && c != '-' then defaultValue else 0.0))
  }

  /** The scope after the name scan extended the name to `name`: dropped
      and committed when no function starts with it (`known` false),
      committed when it just started, kept otherwise. */
  function NameStep(f: Fields, known: bool, name: string): (r: Result<Fields>)
    requires StateOk(f)
    ensures r.Err? ==> r.error == NullReference
    ensures r.Ok? ==> StateOk(r.value) && r.value.funcString == (if known then name else "")
    ensures known && f.funcString != "" ==> r == Ok(f.(funcString := name))
    ensures !(known && f.funcString != "") ==> (r.Ok? <==> Dumped(f).Ok?)
  {
    if !known then
      var d :- Dumped(f);
      Ok(AfterResetFunc(d))
    else if f.funcString == "" then
      var d :- Dumped(f);
      Ok(d.(funcString := name))
    else Ok(f.(funcString := name))
  }

  lemma RefsNameStep(f: Fields, known: bool, name: string, n: nat)
    requires StateOk(f) && RefsIn(f, n) && NameStep(f, known, name).Ok?
    ensures RefsIn(NameStep(f, known, name).value, n)
  {
    if !(known && f.funcString != "") {
      RefsDumped(f, n);
    }
  }

  /** One digit of the pending literal: into the integer part, or, after
      the decimal point, at the current place value. */
  function DigitRead(f: Fields, c: char): (r: Fields)
    requires IsDigit(c) && f.currentValue.Some?
    ensures r.started && r.currentValue.Some?
    ensures !f.hasDecimalPoint ==>
      r.currentValue.value == ReadInteger(f.currentValue.value, [c]) && r.decimalPlace == f.decimalPlace
    ensures f.hasDecimalPoint ==>
      Reading(r.currentValue.value, r.decimalPlace) == FractionStep(f.currentValue.value, f.decimalPlace, c)
    ensures r.(currentValue := f.currentValue, decimalPlace := f.decimalPlace, started := f.started) == f
  {
    var v := f.currentValue.value;
    if f.hasDecimalPoint then
      var next := FractionStep(v, f.decimalPlace, c);
      f.(started := true, currentValue := Some(next.value), decimalPlace := next.place)
    else
      f.(started := true, currentValue := Some(10.0 * v + Digit(c)))
  }

  /** The exceptions `parseFormula` can end in. */
  predicate ParseError(e: Error) {
    Internal(e) || e == InvalidOperationSymbol || e == DoubleComma || e == UnbalancedParenthesis
  }

  /** Some prefix of `s` closes more parentheses than it opened. */
  ghost predicate Unbalanced(s: string) {
    exists j :: 0 <= j <= |s| && Depth(s[..j]) < 0
  }

  ghost predicate AllSpaces(s: string) {
    forall i :: 0 <= i < |s| ==> s[i] == ' '
  }

  /** Both predicates over one more char of `s`. */
  lemma PrefixStep(s: string, i: nat)
    requires i < |s|
    ensures Unbalanced(s[..i + 1]) <==> Unbalanced(s[..i]) || Depth(s[..i + 1]) < 0
    ensures AllSpaces(s[..i + 1]) <==> AllSpaces(s[..i]) && s[i] == ' '
  {
    var t, u := s[..i + 1], s[..i];
    assert forall j :: 0 <= j <= i ==> t[..j] == u[..j];
    assert t[..i + 1] == t;
    if Unbalanced(t) && !Unbalanced(u) {
      var j :| 0 <= j <= i + 1 && Depth(t[..j]) < 0;
      assert j == i + 1;
    }
    if Unbalanced(u) {
      var j :| 0 <= j <= i && Depth(u[..j]) < 0;
      assert Depth(t[..j]) < 0;
    }
    if Depth(t) < 0 {
      assert Depth(t[..i + 1]) < 0;
    }
    assert forall j :: 0 <= j < i ==> t[j] == u[j];
  }

  /** A string with an unbalanced prefix is unbalanced. */
  lemma PrefixGrows(s: string, k: nat)
    requires k <= |s| && Unbalanced(s[..k])
    ensures Unbalanced(s)
  {
    var j :| 0 <= j <= k && Depth(s[..k][..j]) < 0;
    assert s[..k][..j] == s[..j];
  }
}
