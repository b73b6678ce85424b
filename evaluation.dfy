/** Evaluation of formulas (Formula.result, Formula.processChar, the two
    cached entry points and Parser.processEntity). Every evaluation may write
    the caches of the formulas it meets, so each specification function
    returns the value together with the heap it leaves behind. */
module Evaluation {
  import opened Wrappers
  import opened Entities
  import opened Formulas

  /** An operator implementation: `compute(left, right, wasFormula, innerNeg,
      outerMinus)`. */
  type OperatorCompute = (real, real, bool, bool, bool) -> real

  /** A function implementation. It is handed every argument of the call and
      evaluates some of them, in order: `arity == Some(k)` for one that reads
      its first `k` arguments (`a[0]` … `a[k-1]`, so a call with fewer fails),
      `None` for one that loops over all of them (`a.length`), as `min`,
      `max`, `avg`, `sum` and `median` do. `combine` maps the values read to
      the result. */
  datatype FunctionCompute = FunctionCompute(arity: Option<nat>, combine: seq<real> -> real)

  /** `defaultFuncCompute`, used for an id with no implementation: no argument
      is read and the value is 0. */
  const NoFunction := FunctionCompute(Some(0), _ => 0.0)

  /** The number of arguments `fc` reads from a call with `given` arguments. */
  function ArgsRead(fc: FunctionCompute, given: nat): (n: nat)
    ensures fc.arity.None? ==> n == given
  {
    if fc.arity.Some? then fc.arity.value else given
  }

  /** The implementation `computeFunction` uses for `id`. */
  function ImplementationOf(env: Env, id: string): FunctionCompute {
    if id in env.functions then env.functions[id] else NoFunction
  }

  /** What evaluation reads of the parser: the operator implementations and
      priorities indexed by char (their length is the parser's limit), the
      registered functions and the default operator. */
  datatype Env = Env(impl: seq<Option<OperatorCompute>>, prio: seq<int>,
                     functions: map<string, FunctionCompute>, defaultOperator: char)

  /** The three flags handed to an operator about its right operand's
      predecessor: it was a formula, its value was negative, it was a formula
      preceded by `-`. */
  datatype Flags = Flags(wasFormula: bool, innerNeg: bool, outerMinus: bool)

  const NoFlags := Flags(false, false, false)

  /** The flags after entity `e` evaluated to `val`. */
  function After(e: Entity, val: real): (r: Flags)
    ensures r.wasFormula <==> e.Formula?
    ensures r.innerNeg <==> val < 0.0
    ensures r.outerMinus <==> e.Formula? && e.precedentSymbol == '-'
  {
    Flags(e.Formula?, val < 0.0, e.Formula? && e.precedentSymbol == '-')
  }

  /** A value together with the heap the computation left behind. */
  datatype Eval<+T> = Eval(value: Result<T>, nodes: seq<Entity>)

  /** `getOperatorPriority(c)`: the stored priority; a char beyond the limit
      throws. */
  function Priority(env: Env, c: char): (r: Result<int>)
    ensures r.Ok? <==> (c as int) < |env.prio|
    ensures r.Ok? ==> r.value == env.prio[c as int]
    ensures r.Err? ==> r.error == IndexOutOfBounds
  {
    if (c as int) < |env.prio| then Ok(env.prio[c as int]) else Err(IndexOutOfBounds)
  }

  /** `compute(c, left, right, flags)`: a char beyond the limit throws, a char
      without implementation dereferences null. */
  function Compute(env: Env, c: char, left: real, right: real, flags: Flags): (r: Result<real>)
    ensures r.Ok? <==> (c as int) < |env.impl| && env.impl[c as int].Some?
    ensures r.Ok? ==> r.value == env.impl[c as int].value(left, right, flags.wasFormula, flags.innerNeg, flags.outerMinus)
    ensures (c as int) >= |env.impl| ==> r == Err(IndexOutOfBounds)
    ensures (c as int) < |env.impl| && env.impl[c as int].None? ==> r == Err(NullReference)
  {
    if (c as int) >= |env.impl| then Err(IndexOutOfBounds)
    else if env.impl[c as int].None? then Err(NullReference)
    else Ok(env.impl[c as int].value(left, right, flags.wasFormula, flags.innerNeg, flags.outerMinus))
  }

  // ---------------------------------------------------------------------
  // What evaluation may change
  // ---------------------------------------------------------------------

  /** One entity before and after an evaluation: only a formula's cache may
      change; a dirty flag may only be cleared, and only on a formula
      without root. */
  predicate EvolvesAt(x: Entity, y: Entity) {
    if x.Formula? then
      y.Formula? && y.(cache := x.cache) == x &&
      (y.cache.changedNaive ==> x.cache.changedNaive) &&
      (y.cache.changedInOrder ==> x.cache.changedInOrder) &&
      (x.root.Some? ==> y.cache.changedNaive == x.cache.changedNaive &&
                        y.cache.changedInOrder == x.cache.changedInOrder)
    else y == x
  }

  ghost predicate Evolves(a: seq<Entity>, b: seq<Entity>) {
    |a| == |b| && forall i :: 0 <= i < |a| ==> EvolvesAt(a[i], b[i])
  }

  lemma EvolvesRefl(a: seq<Entity>)
    ensures Evolves(a, a)
  {
    forall i | 0 <= i < |a|
      ensures EvolvesAt(a[i], a[i])
    {
      if a[i].Formula? {
        assert a[i].(cache := a[i].cache) == a[i];
      }
    }
  }

  lemma EvolvesTrans(a: seq<Entity>, b: seq<Entity>, c: seq<Entity>)
    requires Evolves(a, b) && Evolves(b, c)
    ensures Evolves(a, c)
  {
    forall i | 0 <= i < |a|
      ensures EvolvesAt(a[i], c[i])
    {
      assert EvolvesAt(a[i], b[i]) && EvolvesAt(b[i], c[i]);
      if a[i].Formula? {
        assert c[i].(cache := b[i].cache) == b[i];
        assert c[i].(cache := a[i].cache) == b[i].(cache := a[i].cache);
      }
    }
  }

  /** Caches are not part of the heap's well-formedness. */
  lemma EvolvesClosed(a: seq<Entity>, b: seq<Entity>)
    requires Closed(a) && Evolves(a, b)
    ensures Closed(b)
  {
    forall i | 0 <= i < |b|
      ensures EntityOk(b[i], |b|) && RootOk(b, b[i])
    {
      assert EvolvesAt(a[i], b[i]) && EntityOk(a[i], |a|) && RootOk(a, a[i]);
      if b[i].Formula? && b[i].root.Some? {
        assert EvolvesAt(a[b[i].root.value], b[b[i].root.value]);
      }
    }
  }

  /** The heap after `result` stored `v` in the cache it computed: the value
      always, the cleared dirty flag only on a formula without root. */
  function Store(nodes: seq<Entity>, f: Ref, inOp: bool, v: real): (r: seq<Entity>)
    requires Closed(nodes) && f < |nodes| && nodes[f].Formula?
    ensures Closed(r) && Evolves(nodes, r)
    ensures r[f].Formula? && r[f].root == nodes[f].root
    ensures inOp ==> r[f].cache.lastInOrder == v && r[f].cache.lastNaive == nodes[f].cache.lastNaive &&
                     r[f].cache.changedNaive == nodes[f].cache.changedNaive &&
                     (r[f].cache.changedInOrder <==> nodes[f].root.Some? && nodes[f].cache.changedInOrder)
    ensures !inOp ==> r[f].cache.lastNaive == v && r[f].cache.lastInOrder == nodes[f].cache.lastInOrder &&
                      r[f].cache.changedInOrder == nodes[f].cache.changedInOrder &&
                      (r[f].cache.changedNaive <==> nodes[f].root.Some? && nodes[f].cache.changedNaive)
  {
    var G := nodes[f];
    var c := if inOp then G.cache.(lastInOrder := v, changedInOrder := G.cache.changedInOrder && G.root.Some?)
             else G.cache.(lastNaive := v, changedNaive := G.cache.changedNaive && G.root.Some?);
    var r := nodes[f := G.(cache := c)];
    assert Evolves(nodes, r) by {
      forall i | 0 <= i < |nodes|
        ensures EvolvesAt(nodes[i], r[i])
      {
        if i != f {
          EvolvesRefl(nodes);
        }
      }
    }
    EvolvesClosed(nodes, r);
    r
  }

  // ---------------------------------------------------------------------
  // The evaluation, as mutually recursive functions
  // ---------------------------------------------------------------------

  /** `processEntity(caller, x, inOp)`: a number is its value; a variable
      reads slot `index` of the table of `caller`'s root (of `caller` itself
      when it has none), negated when marked; a function evaluates its
      arguments and combines them (an unknown id gives 0); a nested formula
      answers through its cached entry point. */
  function EntityValue(env: Env, nodes: seq<Entity>, caller: Ref, x: Ref, inOp: bool, fuel: nat): (r: Eval<real>)
    requires Closed(nodes) && caller < |nodes| && nodes[caller].Formula? && x < |nodes|
    ensures Closed(r.nodes) && Evolves(nodes, r.nodes)
    decreases fuel, 0, 0
  {
    match nodes[x]
    case StaticVariable(value, _) =>
      EvolvesRefl(nodes);
      Eval(Ok(value), nodes)
    case ReplaceableVariable(_, _, negative, index) =>
      EvolvesRefl(nodes);
      var base := if nodes[caller].root.Some? then nodes[caller].root.value else caller;
      var values := nodes[base].variableValues;
      if 0 <= index < |values| then Eval(Ok(if negative then -values[index] else values[index]), nodes)
      else Eval(Err(IndexOutOfBounds), nodes)
    case Function(_, _, _) =>
      if fuel == 0 then
        EvolvesRefl(nodes);
        Eval(Err(OutOfFuel), nodes)
      else FunctionValue(env, nodes, caller, x, inOp, fuel - 1)
    case Formula(_, _, _, _, _, _, _, _, _, _, _) =>
      if fuel == 0 then
        EvolvesRefl(nodes);
        Eval(Err(OutOfFuel), nodes)
      else if inOp then InOrderValue(env, nodes, x, fuel - 1)
      else NaiveValue(env, nodes, x, fuel - 1)
  }

  /** `computeFunction`: the implementation registered for the id (or the
      default one) is handed every argument and combines the ones it reads; a
      call with fewer arguments than a fixed arity fails as Java's array
      access would. */
  function FunctionValue(env: Env, nodes: seq<Entity>, caller: Ref, x: Ref, inOp: bool, fuel: nat): (r: Eval<real>)
    requires Closed(nodes) && caller < |nodes| && nodes[caller].Formula? && x < |nodes| && nodes[x].Function?
    ensures Closed(r.nodes) && Evolves(nodes, r.nodes)
    decreases fuel, 5, 0
  {
    var F := nodes[x];
    var fc := ImplementationOf(env, F.id);
    var n := ArgsRead(fc, |F.params|);
    if |F.params| < n then
      EvolvesRefl(nodes);
      Eval(Err(IndexOutOfBounds), nodes)
    else
      assert EntityOk(F, |nodes|);
      var args := ArgValues(env, nodes, caller, F.params, n, 0, [], inOp, fuel);
      if args.value.Err? then Eval(Err(args.value.error), args.nodes)
      else Eval(Ok(fc.combine(args.value.value)), args.nodes)
  }

  /** The values of a function's arguments `params[k..n]`, left to right,
      after the `vals` already computed; the first failure stops the
      evaluation. */
  function ArgValues(env: Env, nodes: seq<Entity>, caller: Ref, params: seq<Ref>, n: nat, k: nat, vals: seq<real>,
                     inOp: bool, fuel: nat): (r: Eval<seq<real>>)
    requires Closed(nodes) && caller < |nodes| && nodes[caller].Formula? && Below(params, |nodes|)
    requires k <= n <= |params|
    ensures Closed(r.nodes) && Evolves(nodes, r.nodes)
    ensures r.value.Ok? ==> |r.value.value| == |vals| + n - k && r.value.value[..|vals|] == vals
    decreases fuel, 1, n - k
  {
    if k == n then
      EvolvesRefl(nodes);
      Eval(Ok(vals), nodes)
    else
      var v := EntityValue(env, nodes, caller, params[k], inOp, fuel);
      if v.value.Err? then Eval(Err(v.value.error), v.nodes)
      else
        var rest := ArgValues(env, v.nodes, caller, params, n, k + 1, vals + [v.value.value], inOp, fuel);
        EvolvesTrans(nodes, v.nodes, rest.nodes);
        assert rest.value.Ok? ==> rest.value.value[..|vals|] == (vals + [v.value.value])[..|vals|];
        rest
  }

  /** `naiveResult()`: a formula without root whose naive cache is clean
      answers from it; otherwise `result(false)`. */
  function NaiveValue(env: Env, nodes: seq<Entity>, f: Ref, fuel: nat): (r: Eval<real>)
    requires Closed(nodes) && f < |nodes| && nodes[f].Formula?
    ensures Closed(r.nodes) && Evolves(nodes, r.nodes)
    ensures nodes[f].root.None? && !nodes[f].cache.changedNaive ==> r == Eval(Ok(nodes[f].cache.lastNaive), nodes)
    decreases fuel, 4, 0
  {
    var F := nodes[f];
    if F.root.None? && !F.cache.changedNaive then
      EvolvesRefl(nodes);
      Eval(Ok(F.cache.lastNaive), nodes)
    else ResultValue(env, nodes, f, false, fuel)
  }

  /** `inOperationOrderResult()`: the cache is consulted only when the formula
      HAS a root, so a root formula always recomputes. */
  function InOrderValue(env: Env, nodes: seq<Entity>, f: Ref, fuel: nat): (r: Eval<real>)
    requires Closed(nodes) && f < |nodes| && nodes[f].Formula?
    ensures Closed(r.nodes) && Evolves(nodes, r.nodes)
    ensures nodes[f].root.None? ==> r == ResultValue(env, nodes, f, true, fuel)
    decreases fuel, 4, 0
  {
    var F := nodes[f];
    if F.root.Some? && !F.cache.changedInOrder then
      EvolvesRefl(nodes);
      Eval(Ok(F.cache.lastInOrder), nodes)
    else ResultValue(env, nodes, f, true, fuel)
  }

  /** `result(inOp)`: throws while evaluation is not enabled; in operation
      order, first splits `inOperationOrder` into runs at priority-0
      operators; then folds `lowestPriority` (in operation order) or the first
      `|inOperationOrder|` entries of `inOrder` (naively); then folds the run
      values with the default operator, and stores the result in the cache of
      its mode. */
  function ResultValue(env: Env, nodes: seq<Entity>, f: Ref, inOp: bool, fuel: nat): (r: Eval<real>)
    requires Closed(nodes) && f < |nodes| && nodes[f].Formula?
    ensures Closed(r.nodes) && Evolves(nodes, r.nodes)
    ensures !nodes[f].addedVariables ==> r == Eval(Err(VariablesMissing), nodes)
    ensures r.value.Ok? && inOp ==> r.nodes[f].cache.lastInOrder == r.value.value &&
                                    (nodes[f].root.None? ==> !r.nodes[f].cache.changedInOrder)
    ensures r.value.Ok? && !inOp ==> r.nodes[f].cache.lastNaive == r.value.value &&
                                     (nodes[f].root.None? ==> !r.nodes[f].cache.changedNaive)
    decreases fuel, 3, 0
  {
    var F := nodes[f];
    if !F.addedVariables then
      EvolvesRefl(nodes);
      Eval(Err(VariablesMissing), nodes)
    else
      EvolvesRefl(nodes);
      var split := if inOp && |F.inOperationOrder| > 0 then SplitValue(env, nodes, f, fuel) else Eval(Ok([]), nodes);
      if split.value.Err? then Eval(Err(split.value.error), split.nodes)
      else
        var toUse := if inOp then F.lowestPriority else F.inOrder;
        var n := if inOp then |F.lowestPriority| else |F.inOperationOrder|;
        assert EvolvesAt(nodes[f], split.nodes[f]);
        var main := FoldFrom(env, split.nodes, f, toUse, n, 0, 0.0, NoFlags, inOp, fuel);
        EvolvesTrans(nodes, split.nodes, main.nodes);
        if main.value.Err? then Eval(Err(main.value.error), main.nodes)
        else
          var total := StaticFold(env, main.value.value, split.value.value, false);
          if total.Err? then Eval(Err(total.error), main.nodes)
          else
            assert EvolvesAt(nodes[f], main.nodes[f]);
            var stored := Store(main.nodes, f, inOp, total.value);
            EvolvesTrans(nodes, main.nodes, stored);
            Eval(Ok(total.value), stored)
  }

  /** The first stage of `result(true)`, started on the first entity of
      `inOperationOrder`. */
  function SplitValue(env: Env, nodes: seq<Entity>, f: Ref, fuel: nat): (r: Eval<seq<real>>)
    requires Closed(nodes) && f < |nodes| && nodes[f].Formula? && |nodes[f].inOperationOrder| > 0
    ensures Closed(r.nodes) && Evolves(nodes, r.nodes)
    ensures r.value.Ok? ==> |r.value.value| == 1 + ZeroCount(env, nodes, nodes[f].inOperationOrder, 1)
    decreases fuel, 2, |nodes[f].inOperationOrder| + 1
  {
    var list := nodes[f].inOperationOrder;
    var x := list[0];
    var first := EntityValue(env, nodes, f, x, true, fuel);
    if first.value.Err? then Eval(Err(first.value.error), first.nodes)
    else
      assert EvolvesAt(nodes[f], first.nodes[f]);
      var r := SplitFrom(env, first.nodes, f, list, 1, first.value.value, After(first.nodes[x], first.value.value), [], fuel);
      EvolvesTrans(nodes, first.nodes, r.nodes);
      ZeroCountEvolves(env, nodes, first.nodes, list, 1);
      r
  }

  /** The loop of the first stage from position `i`: an entity whose
      operator has priority 0 closes the running value into `extra` and
      restarts it at 0; every entity is then folded into the running value
      with its own operator. The last running value closes the list. */
  function SplitFrom(env: Env, nodes: seq<Entity>, f: Ref, list: seq<Ref>, i: nat, tempRes: real,
                     flags: Flags, extra: seq<real>, fuel: nat): (r: Eval<seq<real>>)
    requires Closed(nodes) && f < |nodes| && nodes[f].Formula? && Below(list, |nodes|) && i <= |list|
    ensures Closed(r.nodes) && Evolves(nodes, r.nodes)
    ensures r.value.Ok? ==> |r.value.value| == |extra| + 1 + ZeroCount(env, nodes, list, i)
    ensures r.value.Ok? ==> r.value.value[..|extra|] == extra
    decreases fuel, 2, |list| - i
  {
    if i == |list| then
      EvolvesRefl(nodes);
      Eval(Ok(extra + [tempRes]), nodes)
    else
      var x := list[i];
      var sym := nodes[x].precedentSymbol;
      var p := Priority(env, sym);
      if p.Err? then
        EvolvesRefl(nodes);
        Eval(Err(p.error), nodes)
      else
        var extra' := if p.value == 0 then extra + [tempRes] else extra;
        var start := if p.value == 0 then 0.0 else tempRes;
        var val := EntityValue(env, nodes, f, x, true, fuel);
        if val.value.Err? then Eval(Err(val.value.error), val.nodes)
        else
          var c := Compute(env, sym, start, val.value.value, flags);
          if c.Err? then Eval(Err(c.error), val.nodes)
          else
            assert EvolvesAt(nodes[f], val.nodes[f]);
            var r := SplitFrom(env, val.nodes, f, list, i + 1, c.value, After(val.nodes[x], val.value.value), extra', fuel);
            EvolvesTrans(nodes, val.nodes, r.nodes);
            ZeroCountEvolves(env, nodes, val.nodes, list, i + 1);
            assert r.value.Ok? ==> r.value.value[..|extra|] == r.value.value[..|extra'|][..|extra|];
            r
  }

  /** `processChar(list, n, 0, inOp)` from position `i`: folds the first `n`
      entities of `list` into `acc`, each with its own operator and the flags
      of its predecessor. Reading beyond the list throws. */
  function FoldFrom(env: Env, nodes: seq<Entity>, f: Ref, list: seq<Ref>, n: nat, i: nat, acc: real,
                    flags: Flags, inOp: bool, fuel: nat): (r: Eval<real>)
    requires Closed(nodes) && f < |nodes| && nodes[f].Formula? && Below(list, |nodes|) && i <= n
    ensures Closed(r.nodes) && Evolves(nodes, r.nodes)
    ensures i <= |list| < n ==> r.value.Err?
    decreases fuel, 2, n - i
  {
    if i == n then
      EvolvesRefl(nodes);
      Eval(Ok(acc), nodes)
    else if i >= |list| then
      EvolvesRefl(nodes);
      Eval(Err(IndexOutOfBounds), nodes)
    else
      var x := list[i];
      var val := EntityValue(env, nodes, f, x, inOp, fuel);
      if val.value.Err? then Eval(Err(val.value.error), val.nodes)
      else
        var c := Compute(env, val.nodes[x].precedentSymbol, acc, val.value.value, flags);
        if c.Err? then Eval(Err(c.error), val.nodes)
        else
          assert EvolvesAt(nodes[f], val.nodes[f]);
          var r := FoldFrom(env, val.nodes, f, list, n, i + 1, c.value, After(val.nodes[x], val.value.value), inOp, fuel);
          EvolvesTrans(nodes, val.nodes, r.nodes);
          r
  }

  /** A fold over plain numbers with the default operator: the second
      `processChar` of `result`, over the run values of the first stage
      (each a number preceded by the default operator). */
  function StaticFold(env: Env, acc: real, values: seq<real>, innerNeg: bool): (r: Result<real>)
    ensures values != [] && r.Ok? ==> Compute(env, env.defaultOperator, 0.0, 0.0, NoFlags).Ok?
    ensures values == [] ==> r == Ok(acc)
    decreases |values|
  {
    if values == [] then Ok(acc)
    else
      var c := Compute(env, env.defaultOperator, acc, values[0], Flags(false, innerNeg, false));
      if c.Err? then Err(c.error)
      else StaticFold(env, c.value, values[1..], values[0] < 0.0)
  }

  /** How many entities of `list` from position `i` on have an operator of
      priority 0. */
  function ZeroCount(env: Env, nodes: seq<Entity>, list: seq<Ref>, i: nat): (k: nat)
    requires Below(list, |nodes|) && i <= |list|
    ensures k <= |list| - i
    decreases |list| - i
  {
    if i == |list| then 0
    else (if Priority(env, nodes[list[i]].precedentSymbol) == Ok(0) then 1 else 0) + ZeroCount(env, nodes, list, i + 1)
  }

  /** Evaluation does not move operators, so it does not change the count. */
  lemma {:induction false} ZeroCountEvolves(env: Env, a: seq<Entity>, b: seq<Entity>, list: seq<Ref>, i: nat)
    requires Evolves(a, b) && Below(list, |a|) && i <= |list|
    ensures ZeroCount(env, a, list, i) == ZeroCount(env, b, list, i)
    decreases |list| - i
  {
    if i < |list| {
      assert EvolvesAt(a[list[i]], b[list[i]]);
      assert a[list[i]].precedentSymbol == b[list[i]].precedentSymbol by {
        if a[list[i]].Formula? {
          assert b[list[i]].(cache := a[list[i]].cache) == a[list[i]];
        }
      }
      ZeroCountEvolves(env, a, b, list, i + 1);
    }
  }

  // ---------------------------------------------------------------------
  // A reference fold over plain numbers
  // ---------------------------------------------------------------------

  /** A left fold of operator applications over (operator, operand) pairs,
      each step told about its predecessor through the flags. */
  function PairFold(env: Env, pairs: seq<(char, real)>, acc: real, flags: Flags): (r: Result<real>)
    ensures pairs == [] ==> r == Ok(acc)
    decreases |pairs|
  {
    if pairs == [] then Ok(acc)
    else
      var c := Compute(env, pairs[0].0, acc, pairs[0].1, flags);
      if c.Err? then Err(c.error)
      else PairFold(env, pairs[1..], c.value, Flags(false, pairs[0].1 < 0.0, false))
  }

  /** The (operator, value) pairs of the number literals `list[i..n]`. */
  function Pairs(nodes: seq<Entity>, list: seq<Ref>, i: nat, n: nat): (r: seq<(char, real)>)
    requires Below(list, |nodes|) && i <= n <= |list|
    requires forall j :: i <= j < n ==> nodes[list[j]].StaticVariable?
    ensures |r| == n - i
    ensures forall j :: 0 <= j < n - i ==> r[j] == (nodes[list[i + j]].precedentSymbol, nodes[list[i + j]].value)
    decreases n - i
  {
    if i == n then [] else [(nodes[list[i]].precedentSymbol, nodes[list[i]].value)] + Pairs(nodes, list, i + 1, n)
  }

  /** Over number literals alone, `processChar` is the plain left fold of
      their operators and values, and writes nothing. */
  lemma {:induction false} FoldOfNumbers(env: Env, nodes: seq<Entity>, f: Ref, list: seq<Ref>, n: nat, i: nat,
                                          acc: real, flags: Flags, inOp: bool, fuel: nat)
    requires Closed(nodes) && f < |nodes| && nodes[f].Formula? && Below(list, |nodes|) && i <= n <= |list|
    requires forall j :: i <= j < n ==> nodes[list[j]].StaticVariable?
    ensures FoldFrom(env, nodes, f, list, n, i, acc, flags, inOp, fuel) == Eval(PairFold(env, Pairs(nodes, list, i, n), acc, flags), nodes)
    decreases n - i
  {
    if i < n {
      var x := list[i];
      var c := Compute(env, nodes[x].precedentSymbol, acc, nodes[x].value, flags);
      if c.Ok? {
        FoldOfNumbers(env, nodes, f, list, n, i + 1, c.value, After(nodes[x], nodes[x].value), inOp, fuel);
        assert Pairs(nodes, list, i, n)[1..] == Pairs(nodes, list, i + 1, n);
      }
    }
  }

  /** After `result(false)` succeeds on a formula without root, the next
      `naiveResult()` answers from the cache with the same value and changes
      nothing. */
  lemma NaiveCacheHit(env: Env, nodes: seq<Entity>, f: Ref, fuel: nat, later: nat)
    requires Closed(nodes) && f < |nodes| && nodes[f].Formula? && nodes[f].root.None?
    requires ResultValue(env, nodes, f, false, fuel).value.Ok?
    ensures var r := ResultValue(env, nodes, f, false, fuel);
            NaiveValue(env, r.nodes, f, later) == Eval(r.value, r.nodes)
  {
    var r := ResultValue(env, nodes, f, false, fuel);
    assert EvolvesAt(nodes[f], r.nodes[f]);
  }

  /** The values of number literals `params[k..n]`, in order. */
  function LiteralValues(nodes: seq<Entity>, params: seq<Ref>, k: nat, n: nat): (r: seq<real>)
    requires Below(params, |nodes|) && k <= n <= |params|
    requires forall j :: k <= j < n ==> nodes[params[j]].StaticVariable?
    ensures |r| == n - k
    ensures forall j :: k <= j < n ==> r[j - k] == nodes[params[j]].value
    decreases n - k
  {
    if k == n then [] else [nodes[params[k]].value] + LiteralValues(nodes, params, k + 1, n)
  }

  /** Arguments that are number literals evaluate to their values and change
      nothing. */
  lemma {:induction false} ArgsOfNumbers(env: Env, nodes: seq<Entity>, caller: Ref, params: seq<Ref>, n: nat, k: nat,
                                         vals: seq<real>, inOp: bool, fuel: nat)
    requires Closed(nodes) && caller < |nodes| && nodes[caller].Formula? && Below(params, |nodes|)
    requires k <= n <= |params|
    requires forall j :: k <= j < n ==> nodes[params[j]].StaticVariable?
    ensures ArgValues(env, nodes, caller, params, n, k, vals, inOp, fuel)
         == Eval(Ok(vals + LiteralValues(nodes, params, k, n)), nodes)
    decreases n - k
  {
    if k == n {
      assert vals + LiteralValues(nodes, params, k, n) == vals;
    } else {
      var v := nodes[params[k]].value;
      assert EntityValue(env, nodes, caller, params[k], inOp, fuel) == Eval(Ok(v), nodes);
      ArgsOfNumbers(env, nodes, caller, params, n, k + 1, vals + [v], inOp, fuel);
      assert vals + [v] + LiteralValues(nodes, params, k + 1, n) == vals + LiteralValues(nodes, params, k, n);
    }
  }

  /** A call whose arguments are number literals: the implementation combines
      the values of the arguments it reads, all of them when it loops over
      `a.length`, and nothing else changes; a fixed arity above the number of
      arguments fails. */
  lemma FunctionOfNumbers(env: Env, nodes: seq<Entity>, caller: Ref, x: Ref, inOp: bool, fuel: nat)
    requires Closed(nodes) && caller < |nodes| && nodes[caller].Formula? && x < |nodes| && nodes[x].Function?
    requires forall j :: 0 <= j < |nodes[x].params| ==> nodes[nodes[x].params[j]].StaticVariable?
    ensures var F := nodes[x];
            var fc := ImplementationOf(env, F.id);
            var n := ArgsRead(fc, |F.params|);
            FunctionValue(env, nodes, caller, x, inOp, fuel)
              == if |F.params| < n then Eval(Err(IndexOutOfBounds), nodes)
                 else Eval(Ok(fc.combine(LiteralValues(nodes, F.params, 0, n))), nodes)
  {
    var F := nodes[x];
    var n := ArgsRead(ImplementationOf(env, F.id), |F.params|);
    if n <= |F.params| {
      assert EntityOk(F, |nodes|);
      ArgsOfNumbers(env, nodes, caller, F.params, n, 0, [], inOp, fuel);
    }
  }


  /** Where the current run of pairs ends: the first pair whose operator has
      priority 0 or no priority at all, or the length when there is none. */
  function FirstCut(env: Env, pairs: seq<(char, real)>): (k: nat)
    ensures k <= |pairs|
    ensures forall j :: 0 <= j < k ==> Priority(env, pairs[j].0).Ok? && Priority(env, pairs[j].0).value != 0
    ensures k < |pairs| ==> Priority(env, pairs[k].0).Err? || Priority(env, pairs[k].0).value == 0
    decreases |pairs|
  {
    if pairs == [] then 0
    else
      var p := Priority(env, pairs[0].0);
      if p.Ok? && p.value != 0 then 1 + FirstCut(env, pairs[1..]) else 0
  }

  /** A reference for the first stage of `result(true)`: the pairs are cut
      before every operator of priority 0, the first run is folded from `acc`
      and every later run from 0 (its own operator applied to 0 first), each
      run beginning with the flags of the value before it; the sums of the
      runs, in order. */
  function Runs(env: Env, pairs: seq<(char, real)>, acc: real, flags: Flags): (r: Result<seq<real>>)
    ensures r.Ok? ==> |r.value| >= 1
    ensures FirstCut(env, pairs) == |pairs| && PairFold(env, pairs, acc, flags).Ok? ==> r == Ok([PairFold(env, pairs, acc, flags).value])
    decreases |pairs|
  {
    var k := FirstCut(env, pairs);
    var head := PairFold(env, pairs[..k], acc, flags);
    assert k == |pairs| ==> pairs[..k] == pairs;
    if head.Err? then Err(head.error)
    else if k == |pairs| then Ok([head.value])
    else
      var p := Priority(env, pairs[k].0);
      if p.Err? then Err(p.error)
      else
        var before := if k == 0 then flags else Flags(false, pairs[k - 1].1 < 0.0, false);
        var c := Compute(env, pairs[k].0, 0.0, pairs[k].1, before);
        if c.Err? then Err(c.error)
        else
          var rest := Runs(env, pairs[k + 1..], c.value, Flags(false, pairs[k].1 < 0.0, false));
          if rest.Err? then rest else Ok([head.value] + rest.value)
  }

  /** A pair of non-zero priority continues the current run. */
  lemma RunsStep(env: Env, pairs: seq<(char, real)>, acc: real, flags: Flags)
    requires pairs != [] && Priority(env, pairs[0].0).Ok? && Priority(env, pairs[0].0).value != 0
    ensures var c := Compute(env, pairs[0].0, acc, pairs[0].1, flags);
            Runs(env, pairs, acc, flags)
              == if c.Err? then Err(c.error) else Runs(env, pairs[1..], c.value, Flags(false, pairs[0].1 < 0.0, false))
  {
    var tail := pairs[1..];
    var k := FirstCut(env, pairs);
    var k' := FirstCut(env, tail);
    assert k == 1 + k';
    assert pairs[..k][0] == pairs[0];
    assert pairs[..k][1..] == tail[..k'];
    var c := Compute(env, pairs[0].0, acc, pairs[0].1, flags);
    if c.Ok? && k < |pairs| {
      assert pairs[k] == tail[k'];
      assert pairs[k + 1..] == tail[k' + 1..];
      assert pairs[k - 1] == if k' == 0 then pairs[0] else tail[k' - 1];
    }
  }

  /** A pair of priority 0 closes the current run at `acc` and opens the next
      one from 0; an operator without priority fails. */
  lemma RunsCut(env: Env, pairs: seq<(char, real)>, acc: real, flags: Flags)
    requires pairs != [] && (Priority(env, pairs[0].0).Err? || Priority(env, pairs[0].0).value == 0)
    ensures Priority(env, pairs[0].0).Err? ==> Runs(env, pairs, acc, flags) == Err(Priority(env, pairs[0].0).error)
    ensures var c := Compute(env, pairs[0].0, 0.0, pairs[0].1, flags);
            Priority(env, pairs[0].0).Ok? && c.Err? ==> Runs(env, pairs, acc, flags) == Err(c.error)
    ensures var c := Compute(env, pairs[0].0, 0.0, pairs[0].1, flags);
            Priority(env, pairs[0].0).Ok? && c.Ok? ==>
              var rest := Runs(env, pairs[1..], c.value, Flags(false, pairs[0].1 < 0.0, false));
              Runs(env, pairs, acc, flags) == if rest.Err? then rest else Ok([acc] + rest.value)
  {
  }

  /** One step of the first stage of `result(true)` at a number literal. */
  lemma SplitFromLiteral(env: Env, nodes: seq<Entity>, f: Ref, list: seq<Ref>, i: nat,
                         tempRes: real, flags: Flags, extra: seq<real>, fuel: nat)
    requires Closed(nodes) && f < |nodes| && nodes[f].Formula? && Below(list, |nodes|) && i < |list|
    requires nodes[list[i]].StaticVariable?
    ensures var p := Priority(env, nodes[list[i]].precedentSymbol);
            p.Err? ==> SplitFrom(env, nodes, f, list, i, tempRes, flags, extra, fuel) == Eval(Err(p.error), nodes)
    ensures var e := nodes[list[i]];
            var p := Priority(env, e.precedentSymbol);
            var c := Compute(env, e.precedentSymbol, if p.Ok? && p.value != 0 then tempRes else 0.0, e.value, flags);
            p.Ok? && c.Err? ==> SplitFrom(env, nodes, f, list, i, tempRes, flags, extra, fuel) == Eval(Err(c.error), nodes)
    ensures var e := nodes[list[i]];
            var p := Priority(env, e.precedentSymbol);
            var c := Compute(env, e.precedentSymbol, if p.Ok? && p.value != 0 then tempRes else 0.0, e.value, flags);
            p.Ok? && c.Ok? ==>
              SplitFrom(env, nodes, f, list, i, tempRes, flags, extra, fuel)
                == SplitFrom(env, nodes, f, list, i + 1, c.value, After(e, e.value),
                             if p.value == 0 then extra + [tempRes] else extra, fuel)
  {
  }

  /** Over number literals, the first stage of `result(true)` from entry `i`
      on appends to `extra` exactly the sums of the runs `Runs` computes, and
      writes nothing. */
  lemma {:induction false} SplitOfNumbers(env: Env, nodes: seq<Entity>, f: Ref, list: seq<Ref>, i: nat,
                                           tempRes: real, flags: Flags, extra: seq<real>, fuel: nat)
    requires Closed(nodes) && f < |nodes| && nodes[f].Formula? && Below(list, |nodes|) && i <= |list|
    requires forall j :: i <= j < |list| ==> nodes[list[j]].StaticVariable?
    ensures var r := Runs(env, Pairs(nodes, list, i, |list|), tempRes, flags);
            SplitFrom(env, nodes, f, list, i, tempRes, flags, extra, fuel)
              == Eval(if r.Ok? then Ok(extra + r.value) else Err(r.error), nodes)
    decreases |list| - i, 1
  {
    var P := Pairs(nodes, list, i, |list|);
    if i == |list| {
      assert P == [];
      assert FirstCut(env, P) == 0;
    } else {
      var p := Priority(env, nodes[list[i]].precedentSymbol);
      if p.Err? || p.value == 0 {
        SplitCutOfNumbers(env, nodes, f, list, i, tempRes, flags, extra, fuel);
      } else {
        SplitStepOfNumbers(env, nodes, f, list, i, tempRes, flags, extra, fuel);
      }
    }
  }

  /** The case of `SplitOfNumbers` where entry `i` continues the current run. */
  lemma {:induction false} SplitStepOfNumbers(env: Env, nodes: seq<Entity>, f: Ref, list: seq<Ref>, i: nat,
                                               tempRes: real, flags: Flags, extra: seq<real>, fuel: nat)
    requires Closed(nodes) && f < |nodes| && nodes[f].Formula? && Below(list, |nodes|) && i < |list|
    requires forall j :: i <= j < |list| ==> nodes[list[j]].StaticVariable?
    requires Priority(env, nodes[list[i]].precedentSymbol).Ok? && Priority(env, nodes[list[i]].precedentSymbol).value != 0
    ensures var r := Runs(env, Pairs(nodes, list, i, |list|), tempRes, flags);
            SplitFrom(env, nodes, f, list, i, tempRes, flags, extra, fuel)
              == Eval(if r.Ok? then Ok(extra + r.value) else Err(r.error), nodes)
    decreases |list| - i, 0
  {
    var P := Pairs(nodes, list, i, |list|);
    var x := list[i];
    var sym := nodes[x].precedentSymbol;
    var v := nodes[x].value;
    assert P[0] == (sym, v);
    assert P[1..] == Pairs(nodes, list, i + 1, |list|);
    SplitFromLiteral(env, nodes, f, list, i, tempRes, flags, extra, fuel);
    RunsStep(env, P, tempRes, flags);
    var c := Compute(env, sym, tempRes, v, flags);
    if c.Ok? {
      SplitOfNumbers(env, nodes, f, list, i + 1, c.value, After(nodes[x], v), extra, fuel);
    }
  }

  /** Closing a run at `x` before the later runs `rest`. */
  lemma AppendOne(extra: seq<real>, x: real, rest: seq<real>)
    ensures extra + [x] + rest == extra + ([x] + rest)
  {
  }

  /** The case of `SplitOfNumbers` where entry `i` closes the current run. */
  lemma {:induction false} SplitCutOfNumbers(env: Env, nodes: seq<Entity>, f: Ref, list: seq<Ref>, i: nat,
                                              tempRes: real, flags: Flags, extra: seq<real>, fuel: nat)
    requires Closed(nodes) && f < |nodes| && nodes[f].Formula? && Below(list, |nodes|) && i < |list|
    requires forall j :: i <= j < |list| ==> nodes[list[j]].StaticVariable?
    requires Priority(env, nodes[list[i]].precedentSymbol).Err? || Priority(env, nodes[list[i]].precedentSymbol).value == 0
    ensures var r := Runs(env, Pairs(nodes, list, i, |list|), tempRes, flags);
            SplitFrom(env, nodes, f, list, i, tempRes, flags, extra, fuel)
              == Eval(if r.Ok? then Ok(extra + r.value) else Err(r.error), nodes)
    decreases |list| - i, 0
  {
    var P := Pairs(nodes, list, i, |list|);
    var x := list[i];
    var sym := nodes[x].precedentSymbol;
    var v := nodes[x].value;
    assert P[0] == (sym, v);
    assert P[1..] == Pairs(nodes, list, i + 1, |list|);
    SplitFromLiteral(env, nodes, f, list, i, tempRes, flags, extra, fuel);
    RunsCut(env, P, tempRes, flags);
    var p := Priority(env, sym);
    var c := Compute(env, sym, 0.0, v, flags);
    if p.Ok? && c.Ok? {
      var fl := Flags(false, v < 0.0, false);
      assert After(nodes[x], v) == fl;
      var rest := Runs(env, Pairs(nodes, list, i + 1, |list|), c.value, fl);
      assert Runs(env, P, tempRes, flags) == if rest.Err? then rest else Ok([tempRes] + rest.value);
      assert SplitFrom(env, nodes, f, list, i, tempRes, flags, extra, fuel)
          == SplitFrom(env, nodes, f, list, i + 1, c.value, fl, extra + [tempRes], fuel);
      SplitOfNumbers(env, nodes, f, list, i + 1, c.value, fl, extra + [tempRes], fuel);
      if rest.Ok? {
        AppendOne(extra, tempRes, rest.value);
        assert SplitFrom(env, nodes, f, list, i, tempRes, flags, extra, fuel)
            == Eval(Ok(extra + ([tempRes] + rest.value)), nodes);
      } else {
        assert SplitFrom(env, nodes, f, list, i, tempRes, flags, extra, fuel) == Eval(Err(rest.error), nodes);
      }
    }
  }


  /** Over number literals, the first stage of `result(true)` is `Runs` over
      the pairs after the first entry, started from that entry's bare value,
      and writes nothing. */
  lemma SplitValueOfNumbers(env: Env, nodes: seq<Entity>, f: Ref, fuel: nat)
    requires Closed(nodes) && f < |nodes| && nodes[f].Formula? && |nodes[f].inOperationOrder| > 0
    requires Below(nodes[f].inOperationOrder, |nodes|)
    requires forall j :: 0 <= j < |nodes[f].inOperationOrder| ==> nodes[nodes[f].inOperationOrder[j]].StaticVariable?
    ensures var list := nodes[f].inOperationOrder;
            var v := nodes[list[0]].value;
            var r := Runs(env, Pairs(nodes, list, 1, |list|), v, Flags(false, v < 0.0, false));
            SplitValue(env, nodes, f, fuel) == Eval(r, nodes)
  {
    var list := nodes[f].inOperationOrder;
    var x := list[0];
    var v := nodes[x].value;
    assert EntityValue(env, nodes, f, x, true, fuel) == Eval(Ok(v), nodes);
    SplitOfNumbers(env, nodes, f, list, 1, v, After(nodes[x], v), [], fuel);
    var r := Runs(env, Pairs(nodes, list, 1, |list|), v, Flags(false, v < 0.0, false));
    if r.Ok? {
      assert [] + r.value == r.value;
    }
  }
  // ---------------------------------------------------------------------
  // The Java methods, proved against the functions above
  // ---------------------------------------------------------------------

  /** The cache write at the end of `result`. */
  method StoreResult(h: Heap, f: Ref, inOp: bool, v: real)
    requires h.Valid() && f < |h.nodes| && h.nodes[f].Formula?
    modifies h
    ensures h.Valid() && h.nodes == Store(old(h.nodes), f, inOp, v)
  {
    var G := h.nodes[f];
    assert EntityOk(G, |h.nodes|) && RootOk(h.nodes, G);
    if inOp {
      h.Update(f, G.(cache := G.cache.(lastInOrder := v, changedInOrder := G.cache.changedInOrder && G.root.Some?)));
    } else {
      h.Update(f, G.(cache := G.cache.(lastNaive := v, changedNaive := G.cache.changedNaive && G.root.Some?)));
    }
  }

  /** `processEntity(caller, x, inOp)`. */
  method ProcessEntity(h: Heap, env: Env, caller: Ref, x: Ref, inOp: bool, fuel: nat) returns (r: Result<real>)
    requires h.Valid() && caller < |h.nodes| && h.nodes[caller].Formula? && x < |h.nodes|
    modifies h
    ensures h.Valid() && Eval(r, h.nodes) == EntityValue(env, old(h.nodes), caller, x, inOp, fuel)
    decreases fuel, 0, 2
  {
    var e := h.nodes[x];
    if e.StaticVariable? {
      return Ok(e.value);
    } else if e.Formula? {
      r := FormulaEntity(h, env, caller, x, inOp, fuel);
    } else if e.Function? {
      if fuel == 0 {
        return Err(OutOfFuel);
      }
      r := ComputeFunction(h, env, caller, x, inOp, fuel - 1);
    } else {
      r := VariableEntity(h, env, caller, x, inOp, fuel);
    }
  }

  /** `processEntity` on a nested formula: its own value under the same
      evaluation order. */
  method FormulaEntity(h: Heap, env: Env, caller: Ref, x: Ref, inOp: bool, fuel: nat) returns (r: Result<real>)
    requires h.Valid() && caller < |h.nodes| && h.nodes[caller].Formula? && x < |h.nodes| && h.nodes[x].Formula?
    modifies h
    ensures h.Valid() && Eval(r, h.nodes) == EntityValue(env, old(h.nodes), caller, x, inOp, fuel)
    decreases fuel, 0, 1
  {
    if fuel == 0 {
      return Err(OutOfFuel);
    }
    if inOp {
      r := NestedInOrder(h, env, caller, x, inOp, fuel);
    } else {
      r := NestedNaive(h, env, caller, x, inOp, fuel);
    }
  }

  /** A nested formula in operation order: its `inOperationOrderResult()`. */
  method NestedInOrder(h: Heap, env: Env, caller: Ref, x: Ref, inOp: bool, fuel: nat) returns (r: Result<real>)
    requires h.Valid() && caller < |h.nodes| && h.nodes[caller].Formula? && x < |h.nodes| && h.nodes[x].Formula?
    requires inOp && fuel > 0
    modifies h
    ensures h.Valid() && Eval(r, h.nodes) == EntityValue(env, old(h.nodes), caller, x, inOp, fuel)
    decreases fuel, 0, 0
  {
    r := InOperationOrder(h, env, x, fuel - 1);
  }

  /** A nested formula evaluated naively: its `naiveResult()`. */
  method NestedNaive(h: Heap, env: Env, caller: Ref, x: Ref, inOp: bool, fuel: nat) returns (r: Result<real>)
    requires h.Valid() && caller < |h.nodes| && h.nodes[caller].Formula? && x < |h.nodes| && h.nodes[x].Formula?
    requires !inOp && fuel > 0
    modifies h
    ensures h.Valid() && Eval(r, h.nodes) == EntityValue(env, old(h.nodes), caller, x, inOp, fuel)
    decreases fuel, 0, 0
  {
    r := Naive(h, env, x, fuel - 1);
  }

  /** `processEntity` on a replaceable variable: the slot of the root's
      table that the variable's index names, negated for a negated
      variable. */
  method VariableEntity(h: Heap, env: Env, caller: Ref, x: Ref, inOp: bool, fuel: nat) returns (r: Result<real>)
    requires h.Valid() && caller < |h.nodes| && h.nodes[caller].Formula? && x < |h.nodes|
    requires h.nodes[x].ReplaceableVariable?
    ensures Eval(r, h.nodes) == EntityValue(env, h.nodes, caller, x, inOp, fuel)
  {
    var e := h.nodes[x];
    var C := h.nodes[caller];
    var base := if C.root.Some? then C.root.value else caller;
    var values := h.nodes[base].variableValues;
    if 0 <= e.index < |values| {
      return Ok(if e.negative then -values[e.index] else values[e.index]);
    }
    return Err(IndexOutOfBounds);
  }

  /** `computeFunction(caller, inOp, func)`. */
  method ComputeFunction(h: Heap, env: Env, caller: Ref, x: Ref, inOp: bool, fuel: nat) returns (r: Result<real>)
    requires h.Valid() && caller < |h.nodes| && h.nodes[caller].Formula? && x < |h.nodes| && h.nodes[x].Function?
    modifies h
    ensures h.Valid() && Eval(r, h.nodes) == FunctionValue(env, old(h.nodes), caller, x, inOp, fuel)
    decreases fuel, 5, 0
  {
    var F := h.nodes[x];
    var fc := ImplementationOf(env, F.id);
    var n := ArgsRead(fc, |F.params|);
    if |F.params| < n {
      return Err(IndexOutOfBounds);
    }
    assert EntityOk(F, |h.nodes|);
    var args := Arguments(h, env, caller, F.params, n, inOp, fuel);
    if args.Err? {
      return Err(args.error);
    }
    r := Ok(fc.combine(args.value));
  }

  /** The argument loop of a function implementation: each of the first `n`
      argument entities evaluated in turn, in the caller's context. */
  method Arguments(h: Heap, env: Env, caller: Ref, params: seq<Ref>, n: nat, inOp: bool, fuel: nat) returns (r: Result<seq<real>>)
    requires h.Valid() && caller < |h.nodes| && h.nodes[caller].Formula? && Below(params, |h.nodes|) && n <= |params|
    modifies h
    ensures h.Valid() && Eval(r, h.nodes) == ArgValues(env, old(h.nodes), caller, params, n, 0, [], inOp, fuel)
    decreases fuel, 1, n
  {
    ghost var orig := h.nodes;
    var vals: seq<real> := [];
    var k := 0;
    while k < n
      invariant 0 <= k <= n && |vals| == k
      invariant h.Valid() && |h.nodes| == |orig| && h.nodes[caller].Formula?
      invariant ArgValues(env, h.nodes, caller, params, n, k, vals, inOp, fuel) ==
                ArgValues(env, orig, caller, params, n, 0, [], inOp, fuel)
      decreases n - k
    {
      ghost var before := h.nodes;
      var v := ProcessEntity(h, env, caller, params[k], inOp, fuel);
      assert EvolvesAt(before[caller], h.nodes[caller]);
      if v.Err? {
        return Err(v.error);
      }
      vals := vals + [v.value];
      k := k + 1;
    }
    r := Ok(vals);
  }

  /** `naiveResult()` without arguments. */
  method Naive(h: Heap, env: Env, f: Ref, fuel: nat) returns (r: Result<real>)
    requires h.Valid() && f < |h.nodes| && h.nodes[f].Formula?
    modifies h
    ensures h.Valid() && Eval(r, h.nodes) == NaiveValue(env, old(h.nodes), f, fuel)
    decreases fuel, 4, 0
  {
    var F := h.nodes[f];
    if F.root.None? && !F.cache.changedNaive {
      return Ok(F.cache.lastNaive);
    }
    r := Result(h, env, f, false, fuel);
  }

  /** `inOperationOrderResult()` without arguments. */
  method InOperationOrder(h: Heap, env: Env, f: Ref, fuel: nat) returns (r: Result<real>)
    requires h.Valid() && f < |h.nodes| && h.nodes[f].Formula?
    modifies h
    ensures h.Valid() && Eval(r, h.nodes) == InOrderValue(env, old(h.nodes), f, fuel)
    decreases fuel, 4, 0
  {
    var F := h.nodes[f];
    if F.root.Some? && !F.cache.changedInOrder {
      return Ok(F.cache.lastInOrder);
    }
    r := Result(h, env, f, true, fuel);
  }

  /** `result(inOp)`. */
  method Result(h: Heap, env: Env, f: Ref, inOp: bool, fuel: nat) returns (r: Result<real>)
    requires h.Valid() && f < |h.nodes| && h.nodes[f].Formula?
    modifies h
    ensures h.Valid() && Eval(r, h.nodes) == ResultValue(env, old(h.nodes), f, inOp, fuel)
    decreases fuel, 3, 0
  {
    ghost var orig := h.nodes;
    var F := h.nodes[f];
    if !F.addedVariables {
      return Err(VariablesMissing);
    }
    var extra: seq<real> := [];
    if inOp && |F.inOperationOrder| > 0 {
      var split := Split(h, env, f, fuel);
      if split.Err? {
        return Err(split.error);
      }
      extra := split.value;
    }
    ghost var splitNodes := h.nodes;
    assert EvolvesAt(orig[f], h.nodes[f]);
    var toUse := if inOp then F.lowestPriority else F.inOrder;
    var n := if inOp then |F.lowestPriority| else |F.inOperationOrder|;
    assert Below(toUse, |h.nodes|) by {
      assert EntityOk(F, |orig|);
    }
    var main := ProcessChar(h, env, f, toUse, n, 0.0, inOp, fuel);
    if main.Err? {
      return Err(main.error);
    }
    var total := FoldExtra(env, main.value, extra);
    if total.Err? {
      return Err(total.error);
    }
    assert EvolvesAt(splitNodes[f], h.nodes[f]);
    StoreResult(h, f, inOp, total.value);
    r := Ok(total.value);
  }

  /** The first-stage loop of `result(true)`. */
  method Split(h: Heap, env: Env, f: Ref, fuel: nat) returns (r: Result<seq<real>>)
    requires h.Valid() && f < |h.nodes| && h.nodes[f].Formula? && |h.nodes[f].inOperationOrder| > 0
    modifies h
    ensures h.Valid() && Eval(r, h.nodes) == SplitValue(env, old(h.nodes), f, fuel)
    decreases fuel, 2, 1
  {
    ghost var orig := h.nodes;
    var list := h.nodes[f].inOperationOrder;
    assert Below(list, |h.nodes|) by {
      assert EntityOk(h.nodes[f], |h.nodes|);
    }
    var x := list[0];
    var first := ProcessEntity(h, env, f, x, true, fuel);
    if first.Err? {
      return Err(first.error);
    }
    var tempRes := first.value;
    var flags := After(h.nodes[x], tempRes);
    var extra: seq<real> := [];
    assert EvolvesAt(orig[f], h.nodes[f]);
    var i := 1;
    while i < |list|
      invariant 1 <= i <= |list|
      invariant h.Valid() && |h.nodes| == |orig| && h.nodes[f].Formula?
      invariant SplitFrom(env, h.nodes, f, list, i, tempRes, flags, extra, fuel) == SplitValue(env, orig, f, fuel)
      decreases |list| - i
    {
      var step := SplitStep(h, env, f, list, i, tempRes, flags, extra, fuel);
      if step.Err? {
        return Err(step.error);
      }
      tempRes, flags, extra := step.value.0, step.value.1, step.value.2;
      i := i + 1;
    }
    r := Ok(extra + [tempRes]);
  }

  /** One pass of the first-stage loop: a priority-0 operator closes the
      current run, then the entity joins the (new) run. */
  method SplitStep(h: Heap, env: Env, f: Ref, list: seq<Ref>, i: nat, tempRes: real, flags: Flags, extra: seq<real>,
                   fuel: nat) returns (r: Result<(real, Flags, seq<real>)>)
    requires h.Valid() && f < |h.nodes| && h.nodes[f].Formula? && Below(list, |h.nodes|) && i < |list|
    modifies h
    ensures h.Valid() && |h.nodes| == |old(h.nodes)| && h.nodes[f].Formula?
    ensures var spec := SplitFrom(env, old(h.nodes), f, list, i, tempRes, flags, extra, fuel);
            if r.Err? then spec == Eval(Err(r.error), h.nodes)
            else spec == SplitFrom(env, h.nodes, f, list, i + 1, r.value.0, r.value.1, r.value.2, fuel)
    decreases fuel, 2, 0
  {
    ghost var before := h.nodes;
    var e := list[i];
    var sym := h.nodes[e].precedentSymbol;
    var prio := Priority(env, sym);
    if prio.Err? {
      return Err(prio.error);
    }
    var acc, runs := tempRes, extra;
    if prio.value == 0 {
      runs := extra + [tempRes];
      acc := 0.0;
    }
    var val := ProcessEntity(h, env, f, e, true, fuel);
    assert EvolvesAt(before[f], h.nodes[f]);
    if val.Err? {
      return Err(val.error);
    }
    var c := Compute(env, sym, acc, val.value, flags);
    if c.Err? {
      return Err(c.error);
    }
    r := Ok((c.value, After(h.nodes[e], val.value), runs));
  }

  /** `processChar(list, n, start, inOp)`. */
  method ProcessChar(h: Heap, env: Env, f: Ref, list: seq<Ref>, n: nat, start: real, inOp: bool, fuel: nat)
    returns (r: Result<real>)
    requires h.Valid() && f < |h.nodes| && h.nodes[f].Formula? && Below(list, |h.nodes|)
    modifies h
    ensures h.Valid() && Eval(r, h.nodes) == FoldFrom(env, old(h.nodes), f, list, n, 0, start, NoFlags, inOp, fuel)
    decreases fuel, 2, 0
  {
    ghost var orig := h.nodes;
    var acc := start;
    var flags := NoFlags;
    var i := 0;
    while i < n
      invariant 0 <= i <= n
      invariant h.Valid() && |h.nodes| == |orig| && h.nodes[f].Formula?
      invariant FoldFrom(env, h.nodes, f, list, n, i, acc, flags, inOp, fuel) ==
                FoldFrom(env, orig, f, list, n, 0, start, NoFlags, inOp, fuel)
      decreases n - i
    {
      if i >= |list| {
        return Err(IndexOutOfBounds);
      }
      ghost var before := h.nodes;
      var e := list[i];
      var val := ProcessEntity(h, env, f, e, inOp, fuel);
      assert EvolvesAt(before[f], h.nodes[f]);
      if val.Err? {
        return Err(val.error);
      }
      var c := Compute(env, h.nodes[e].precedentSymbol, acc, val.value, flags);
      if c.Err? {
        return Err(c.error);
      }
      acc := c.value;
      flags := After(h.nodes[e], val.value);
      i := i + 1;
    }
    r := Ok(acc);
  }

  /** The second `processChar` of `result(true)`, over the run values. */
  method FoldExtra(env: Env, start: real, extra: seq<real>) returns (r: Result<real>)
    ensures r == StaticFold(env, start, extra, false)
  {
    var acc := start;
    var innerNeg := false;
    var i := 0;
    while i < |extra|
      invariant 0 <= i <= |extra|
      invariant StaticFold(env, acc, extra[i..], innerNeg) == StaticFold(env, start, extra, false)
      decreases |extra| - i
    {
      assert extra[i..][1..] == extra[i + 1..];
      var c := Compute(env, env.defaultOperator, acc, extra[i], Flags(false, innerNeg, false));
      if c.Err? {
        return Err(c.error);
      }
      acc := c.value;
      innerNeg := extra[i] < 0.0;
      i := i + 1;
    }
    assert extra[i..] == [];
    r := Ok(acc);
  }

  // ---------------------------------------------------------------------
  // The public entry points
  // ---------------------------------------------------------------------

  /** The heap once `naiveResult(values...)` or `inOperationOrderResult(values...)`
      has handed non-empty `values` to `setVariables`, or that call's failure. */
  function Bound(nodes: seq<Entity>, f: Ref, values: seq<real>): (r: Result<seq<Entity>>)
    requires Closed(nodes) && f < |nodes| && nodes[f].Formula?
    ensures r.Err? <==> 0 < |values| < |nodes[f].variableNames|
    ensures r.Err? ==> r.error == TooFewValues
    ensures r.Ok? ==> Closed(r.value) && |r.value| == |nodes| && r.value[f].Formula?
    ensures r.Ok? && values != [] ==>
              r.value[f].addedVariables && r.value[f].cache == ClearedCache &&
              r.value[f].variableValues == values[..|nodes[f].variableNames|]
    ensures r.Ok? ==> forall i :: 0 <= i < |nodes| && i != f ==> r.value[i] == nodes[i]
  {
    if values == [] then Ok(nodes)
    else if |values| < |nodes[f].variableNames| then Err(TooFewValues)
    else
      var b := BindAll(nodes[f], values);
      assert EntityOk(nodes[f], |nodes|);
      assert RefsBelow(b, |nodes|) by {
        assert b.inOrder == nodes[f].inOrder && b.inOperationOrder == nodes[f].inOperationOrder;
        assert b.lowestPriority == nodes[f].lowestPriority && b.root == nodes[f].root;
      }
      var r := nodes[f := b];
      assert forall i :: 0 <= i < |r| ==> EntityOk(r[i], |r|) && RootOk(r, r[i]) by {
        forall i | 0 <= i < |r|
          ensures EntityOk(r[i], |r|) && RootOk(r, r[i])
        {
          assert EntityOk(nodes[i], |nodes|) && RootOk(nodes, nodes[i]);
        }
      }
      Ok(r)
  }

  /** `naiveResult(values...)`. */
  function NaiveEntry(env: Env, nodes: seq<Entity>, f: Ref, values: seq<real>, fuel: nat): (r: Eval<real>)
    requires Closed(nodes) && f < |nodes| && nodes[f].Formula?
    ensures Closed(r.nodes)
    ensures 0 < |values| < |nodes[f].variableNames| ==> r == Eval(Err(TooFewValues), nodes)
  {
    var b := Bound(nodes, f, values);
    if b.Err? then Eval(Err(b.error), nodes) else NaiveValue(env, b.value, f, fuel)
  }

  /** `inOperationOrderResult(values...)`. */
  function InOrderEntry(env: Env, nodes: seq<Entity>, f: Ref, values: seq<real>, fuel: nat): (r: Eval<real>)
    requires Closed(nodes) && f < |nodes| && nodes[f].Formula?
    ensures Closed(r.nodes)
    ensures 0 < |values| < |nodes[f].variableNames| ==> r == Eval(Err(TooFewValues), nodes)
  {
    var b := Bound(nodes, f, values);
    if b.Err? then Eval(Err(b.error), nodes) else InOrderValue(env, b.value, f, fuel)
  }

  /** Handing values to either entry point always recomputes: the binding
      clears both caches. */
  lemma BindingRecomputes(env: Env, nodes: seq<Entity>, f: Ref, values: seq<real>, fuel: nat)
    requires Closed(nodes) && f < |nodes| && nodes[f].Formula? && |values| >= |nodes[f].variableNames| && values != []
    ensures var b := Bound(nodes, f, values).value;
            NaiveEntry(env, nodes, f, values, fuel) == ResultValue(env, b, f, false, fuel) &&
            InOrderEntry(env, nodes, f, values, fuel) == ResultValue(env, b, f, true, fuel)
  {
  }

  /** `setVariables` as the entry points call it: nothing for no values. */
  method Bind(h: Heap, f: Ref, values: seq<real>) returns (o: Outcome)
    requires h.Valid() && f < |h.nodes| && h.nodes[f].Formula?
    modifies h
    ensures h.Valid()
    ensures var b := Bound(old(h.nodes), f, values);
            if b.Err? then o == Fail(b.error) && h.nodes == old(h.nodes) else o == Pass && h.nodes == b.value
  {
    if |values| == 0 {
      return Pass;
    }
    o := SetVariables(h, f, values);
  }

  /** `naiveResult(values...)`. */
  method NaiveResult(h: Heap, env: Env, f: Ref, values: seq<real>, fuel: nat) returns (r: Result<real>)
    requires h.Valid() && f < |h.nodes| && h.nodes[f].Formula?
    modifies h
    ensures h.Valid() && Eval(r, h.nodes) == NaiveEntry(env, old(h.nodes), f, values, fuel)
  {
    var o := Bind(h, f, values);
    if o.Fail? {
      return Err(o.error);
    }
    r := Naive(h, env, f, fuel);
  }

  /** `inOperationOrderResult(values...)`. */
  method InOperationOrderResult(h: Heap, env: Env, f: Ref, values: seq<real>, fuel: nat) returns (r: Result<real>)
    requires h.Valid() && f < |h.nodes| && h.nodes[f].Formula?
    modifies h
    ensures h.Valid() && Eval(r, h.nodes) == InOrderEntry(env, old(h.nodes), f, values, fuel)
  {
    var o := Bind(h, f, values);
    if o.Fail? {
      return Err(o.error);
    }
    r := InOperationOrder(h, env, f, fuel);
  }
}
