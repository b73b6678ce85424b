/** The entities a parsed formula is made of, and the arena that holds them.

    Java entities are mutable objects that several containers share: a bucket
    and the `inOrder` list hold the same `FormulaEntity`, and relabelling its
    preceding operator through one is seen through the other. The model keeps
    that sharing observable by storing every entity once in a `Heap` and
    letting containers hold `Ref`s (indices into it). */
module Entities {
  import opened Wrappers

  /** A reference to an entity: its position in the heap. */
  type Ref = nat

  /** The two cached results of a formula and their dirty flags. */
  datatype Cache = Cache(lastNaive: real, lastInOrder: real, changedNaive: bool, changedInOrder: bool)

  /** Both results invalid and zero, as after construction or `resetCache`. */
  const ClearedCache := Cache(0.0, 0.0, true, true)

  datatype Entity =
      /** a number literal (StaticVariable.java is not part of this model; its
          shape follows its uses: a `double` value and a preceding symbol) */
    | StaticVariable(value: real, precedentSymbol: char)
      /** a variable letter, its negation flag and its slot in the root's table */
    | ReplaceableVariable(name: char, precedentSymbol: char, negative: bool, index: int)
      /** a call of a registered function on argument entities */
    | Function(id: string, params: seq<Ref>, precedentSymbol: char)
      /** a (sub-)formula: its three entity lists, its variable table, its
          caches and the root whose table its variables read */
    | Formula(precedentSymbol: char,
              inOrder: seq<Ref>, inOperationOrder: seq<Ref>, lowestPriority: seq<Ref>,
              variableNames: seq<char>, variableValues: seq<real>, variableSet: seq<bool>,
              variableIndex: map<char, int>, addedVariables: bool, cache: Cache,
              root: Option<Ref>)

  /** `FormulaEntity.value`: a number for literals, the letter for variables,
      and 0 for functions and formulas. */
  datatype Value = Number(number: real) | Letter(letter: char)

  function ValueOf(e: Entity): (v: Value)
    ensures e.ReplaceableVariable? <==> v.Letter?
    ensures e.StaticVariable? ==> v == Number(e.value)
    ensures e.Function? || e.Formula? ==> v == Number(0.0)
  {
    match e
    case StaticVariable(value, _) => Number(value)
    case ReplaceableVariable(name, _, _, _) => Letter(name)
    case _ => Number(0.0)
  }

  /** `new ReplaceableVariable(c, symbol, negative)`: the index starts at 0. */
  function NewReplaceable(name: char, symbol: char, negative: bool): (e: Entity)
    ensures e.ReplaceableVariable? && ValueOf(e) == Letter(name)
    ensures e.precedentSymbol == symbol && e.negative == negative && e.index == 0
  {
    ReplaceableVariable(name, symbol, negative, 0)
  }

  /** The entity with its preceding operator replaced; nothing else changes. */
  function WithSymbol(e: Entity, c: char): (r: Entity)
    ensures r.precedentSymbol == c && ValueOf(r) == ValueOf(e)
    ensures r.(precedentSymbol := e.precedentSymbol) == e
  {
    e.(precedentSymbol := c)
  }

  /** The variable with its table slot replaced; its letter and negation flag
      are the constructor's. */
  function WithIndex(e: Entity, index: int): (r: Entity)
    requires e.ReplaceableVariable?
    ensures r.ReplaceableVariable? && r.index == index
    ensures r.name == e.name && r.negative == e.negative && r.precedentSymbol == e.precedentSymbol
  {
    e.(index := index)
  }

  /** Every reference in `s` names an entity of a heap of `n` entities. */
  ghost predicate Below(s: seq<Ref>, n: nat) {
    forall j :: 0 <= j < |s| ==> s[j] < n
  }

  /** Every reference held by `e` names an entity of a heap of `n` entities. */
  ghost predicate RefsBelow(e: Entity, n: nat) {
    match e
    case Function(_, params, _) => Below(params, n)
    case Formula(_, inOrder, inOperationOrder, lowestPriority, _, _, _, _, _, _, root) =>
      Below(inOrder, n) && Below(inOperationOrder, n) && Below(lowestPriority, n) &&
      (root.Some? ==> root.value < n)
    case _ => true
  }

  /** The variable table of a formula: three parallel arrays, and an index
      whose every entry names a slot of them. */
  ghost predicate TableOk(e: Entity)
    requires e.Formula?
  {
    |e.variableValues| == |e.variableNames| && |e.variableSet| == |e.variableNames| &&
    forall c :: c in e.variableIndex ==> 0 <= e.variableIndex[c] < |e.variableNames|
  }

  /** `e` may live in a heap of `n` entities. */
  ghost predicate EntityOk(e: Entity, n: nat) {
    RefsBelow(e, n) && (e.Formula? ==> TableOk(e))
  }

  /** The root of a formula, if any, is itself a formula of the heap. */
  ghost predicate RootOk(nodes: seq<Entity>, e: Entity) {
    e.Formula? && e.root.Some? ==> e.root.value < |nodes| && nodes[e.root.value].Formula?
  }

  /** No entity holds a dangling reference, every table is well formed and
      every root is a formula. */
  ghost predicate Closed(nodes: seq<Entity>) {
    forall i :: 0 <= i < |nodes| ==> EntityOk(nodes[i], |nodes|) && RootOk(nodes, nodes[i])
  }

  /** Java objects never change class. */
  predicate SameKind(a: Entity, b: Entity) {
    (a.StaticVariable? <==> b.StaticVariable?) && (a.ReplaceableVariable? <==> b.ReplaceableVariable?) &&
    (a.Function? <==> b.Function?) && (a.Formula? <==> b.Formula?)
  }

  /** The Java heap restricted to formula entities. */
  class Heap {
    var nodes: seq<Entity>

    ghost predicate Valid()
      reads this
    {
      Closed(nodes)
    }

    constructor()
      ensures Valid() && nodes == []
    {
      nodes := [];
    }

    /** Allocates `e`; its reference is the next free index. */
    method New(e: Entity) returns (r: Ref)
      requires Valid() && EntityOk(e, |nodes|) && RootOk(nodes, e)
      modifies this
      ensures Valid()
      ensures r == |old(nodes)| && nodes == old(nodes) + [e]
    {
      r := |nodes|;
      nodes := nodes + [e];
      assert forall i :: 0 <= i < |nodes| - 1 ==> nodes[i] == old(nodes)[i];
    }

    /** Overwrites the entity at `r` in place (every holder of `r` sees it);
        the object keeps its class. */
    method Update(r: Ref, e: Entity)
      requires Valid() && r < |nodes| && SameKind(nodes[r], e)
      requires EntityOk(e, |nodes|) && RootOk(nodes, e)
      modifies this
      ensures Valid() && nodes == old(nodes)[r := e]
    {
      nodes := nodes[r := e];
      assert forall i :: 0 <= i < |nodes| && i != r ==> nodes[i] == old(nodes)[i];
    }

    /** `FormulaEntity.setPrecedentSymbol`. */
    method SetPrecedentSymbol(r: Ref, c: char)
      requires Valid() && r < |nodes|
      modifies this
      ensures Valid() && nodes == old(nodes)[r := WithSymbol(old(nodes)[r], c)]
    {
      Update(r, WithSymbol(nodes[r], c));
    }

    /** `ReplaceableVariable.setIndex`. */
    method SetIndex(r: Ref, index: int)
      requires Valid() && r < |nodes| && nodes[r].ReplaceableVariable?
      modifies this
      ensures Valid() && nodes == old(nodes)[r := WithIndex(old(nodes)[r], index)]
    {
      Update(r, WithIndex(nodes[r], index));
    }
  }

  /** `ReplaceableVariable.equals`: identity first, then the type test, then
      `Object.equals` (identity again), so two distinct variables are never
      equal, whatever their letters, and Java's final comparison of the
      letters is unreachable. */
  function ReplaceableEquals(nodes: seq<Entity>, self: Ref, o: Option<Ref>): (r: bool)
    requires self < |nodes| && nodes[self].ReplaceableVariable?
    requires o.Some? ==> o.value < |nodes|
    ensures r <==> o == Some(self)
  {
    if o == Some(self) then true
    else if o.None? || !nodes[o.value].ReplaceableVariable? then false
    // `super.equals(o)` is identity, which has already failed here
    else false
  }

  /** `new Function(id, params, size, symbol)`: copies the first `size`
      references of the argument buffer into a list of its own. */
  method NewFunction(id: string, buffer: seq<Ref>, size: nat, symbol: char) returns (f: Entity)
    requires size <= |buffer|
    ensures f.Function? && f.id == id && f.precedentSymbol == symbol && ValueOf(f) == Number(0.0)
    ensures |f.params| == size && forall i :: 0 <= i < size ==> f.params[i] == buffer[i]
  {
    var params: seq<Ref> := [];
    var i := 0;
    while i < size
      invariant 0 <= i <= size
      invariant params == buffer[..i]
    {
      params := params + [buffer[i]];
      i := i + 1;
    }
    f := Function(id, params, symbol);
  }
}
