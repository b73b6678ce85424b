/** `Parser`: the configuration (operators with priorities, decimal commas,
    argument delimiters, functions, options) and the one-pass scan that turns
    a formula string into a tree of entities. */
module Parsers {
  import opened Wrappers
  import opened Entities
  import opened TempLists
  import opened TempMaps
  import opened NameSearch
  import opened Formulas
  import opened Evaluation
  import opened OperatorTables
  import opened ParsingStates
  import opened Literals
  import opened ParserRules

  class Parser {
    /** The number of chars that can carry a role (Java's array size). */
    const limit: nat
    const opImpl: array<Option<OperatorCompute>>
    const opPrio: array<int>
    const opPresent: array<bool>
    const commas: array<bool>
    const delims: array<bool>
    /** Rank by priority, and the number of buckets a scope's map needs. */
    var opIndexByPrio: seq<int>
    var opIndexMapSize: int
    var functions: map<string, FunctionCompute>
    /** The registered names in the order `funcNameSearcher` counted them. */
    ghost var functionNames: seq<string>
    const funcNameSearcher: NameSearcher
    var settings: Settings
    /** The implementations `initDefaults` registers (Java lambdas). */
    const operatorImpls: char -> OperatorCompute
    const builtinImpls: string -> FunctionCompute

    /** The arrays have the parser's limit as length and are distinct
        objects; the limit leaves room for the default operators. */
    ghost predicate Shaped()
      reads this
    {
      limit > '^' as int &&
      opImpl.Length == limit && opPrio.Length == limit && opPresent.Length == limit &&
      commas.Length == limit && delims.Length == limit &&
      opPresent != commas && opPresent != delims && commas != delims
    }

    ghost predicate Valid()
      reads this, opImpl, opPrio, opPresent, commas, delims, funcNameSearcher
    {
      Shaped() &&
      RolesOk(opImpl[..], opPrio[..], opPresent[..], commas[..], delims[..]) &&
      opIndexByPrio == RankTable(opPresent[..], opPrio[..]) &&
      opIndexMapSize == MapSize(opPresent[..], opPrio[..]) &&
      funcNameSearcher.Valid() &&
      RegistryOk(functions, functionNames, funcNameSearcher.prefixCounts)
    }

    /** `new Parser(size)`: arrays of `size` slots, then `reset()`. */
    constructor(size: nat, operators: char -> OperatorCompute, builtins: string -> FunctionCompute)
      requires size > '^' as int
      ensures Valid() && limit == size && settings == DefaultSettings
      ensures fresh(opImpl) && fresh(opPrio) && fresh(opPresent) && fresh(commas) && fresh(delims)
      ensures fresh(funcNameSearcher)
      ensures forall c :: 0 <= c < limit ==>
        opPresent[c] == IsDefaultOperator(c) && opPrio[c] == DefaultPriority(c) &&
        commas[c] == (c == '.' as int) && delims[c] == (c == ',' as int)
      ensures forall c :: IsDefaultOperator(c as int) ==> opImpl[c as int] == Some(operators(c))
      ensures functions == map n | n in DefaultFunctionNames :: builtins(n)
    {
      limit := size;
      opImpl := new Option<OperatorCompute>[size](_ => None);
      opPrio := new int[size](_ => 0);
      opPresent := new bool[size](_ => false);
      commas := new bool[size](_ => false);
      delims := new bool[size](_ => false);
      funcNameSearcher := new NameSearcher();
      operatorImpls := operators;
      builtinImpls := builtins;
      opIndexByPrio := [];
      opIndexMapSize := 1;
      functions := map[];
      functionNames := [];
      settings := DefaultSettings;
      new;
      Reset();
    }

    /** `reset()` (`initDefaults`): every role and function cleared, the
        default options, then the default operators, comma, delimiter and
        functions registered. */
    method Reset()
      requires Shaped() && funcNameSearcher.Valid()
      modifies this, opImpl, opPrio, opPresent, commas, delims, funcNameSearcher
      ensures Valid() && settings == DefaultSettings
      ensures forall c :: 0 <= c < limit ==>
        opPresent[c] == IsDefaultOperator(c) && opPrio[c] == DefaultPriority(c) &&
        commas[c] == (c == '.' as int) && delims[c] == (c == ',' as int)
      ensures forall c :: IsDefaultOperator(c as int) ==> opImpl[c as int] == Some(operatorImpls(c))
      ensures functions == map n | n in DefaultFunctionNames :: builtinImpls(n)
    {
      ClearAll();
      AddDefaultOperators();
      AddDefaultSeparators();
      AddDefaultFunctions();
    }

    /** The built-in functions `initDefaults` registers, on an empty
        registry. */
    method AddDefaultFunctions()
      requires Valid() && functions == map[]
      modifies this, funcNameSearcher
      ensures Valid() && settings == old(settings)
      ensures opIndexByPrio == old(opIndexByPrio) && opIndexMapSize == old(opIndexMapSize)
      ensures functions == map n | n in DefaultFunctionNames :: builtinImpls(n)
    {
      AddBuiltins(DefaultFunctionNames);
    }

    /** The comma and delimiter `initDefaults` registers: `.` and `,`. */
    method AddDefaultSeparators()
      requires Valid() && !opPresent['.' as int] && !opPresent[',' as int]
      requires forall c :: 0 <= c < limit ==> !commas[c] && !delims[c]
      modifies commas, delims
      ensures Valid()
      ensures forall c :: 0 <= c < limit ==> commas[c] == (c == '.' as int) && delims[c] == (c == ',' as int)
    {
      var b := AddComma('.');
      b := AddDelimiter(',');
      forall c | 0 <= c < limit
        ensures commas[c] == (c == '.' as int) && delims[c] == (c == ',' as int)
      {
        assert commas[c] == commas[..][c] && delims[c] == delims[..][c];
      }
    }

    /** The first half of `initDefaults`: no role, no function, and the
        default options. */
    method ClearAll()
      requires Shaped() && funcNameSearcher.Valid()
      modifies this, opImpl, opPrio, opPresent, commas, delims, funcNameSearcher
      ensures Valid() && settings == DefaultSettings && functions == map[]
      ensures forall c :: 0 <= c < limit ==>
        opImpl[c] == None && opPrio[c] == 0 && !opPresent[c] && !commas[c] && !delims[c]
    {
      functions := map[];
      funcNameSearcher.Clear();
      functionNames := [];
      settings := DefaultSettings;
      ClearArrays();
      // Java keeps the previous rank table until the first addOperator
      // rebuilds it; an empty table is what a rebuild gives here.
      opIndexByPrio, opIndexMapSize := [], 1;
      NoneUsed(opPresent[..], opPrio[..]);
    }

    /** No char has a role, an implementation or a priority. */
    method ClearArrays()
      requires Shaped()
      modifies opImpl, opPrio, opPresent, commas, delims
      ensures forall c :: 0 <= c < limit ==>
        opImpl[c] == None && opPrio[c] == 0 && !opPresent[c] && !commas[c] && !delims[c]
    {
      forall i | 0 <= i < limit {
        opImpl[i] := None;
      }
      forall i | 0 <= i < limit {
        opPrio[i] := 0;
      }
      forall i | 0 <= i < limit {
        opPresent[i] := false;
      }
      forall i | 0 <= i < limit {
        commas[i] := false;
      }
      forall i | 0 <= i < limit {
        delims[i] := false;
      }
    }

    /** The six default operators with their priorities. */
    method AddDefaultOperators()
      requires Valid()
      requires forall c :: 0 <= c < limit ==> !opPresent[c] && !commas[c] && !delims[c] && opPrio[c] == 0
      modifies this, opImpl, opPrio, opPresent
      ensures Valid() && settings == old(settings) && functions == old(functions)
      ensures forall c :: 0 <= c < limit ==>
        opPresent[c] == IsDefaultOperator(c) && opPrio[c] == DefaultPriority(c) && !commas[c] && !delims[c]
      ensures forall c :: IsDefaultOperator(c as int) ==> opImpl[c as int] == Some(operatorImpls(c))
    {
      ghost var present, prio, impl := opPresent[..], opPrio[..], opImpl[..];
      RegisterDefaults();
      ghost var f := (c: char) => Some(operatorImpls(c));
      DefaultTables(present, prio);
      DefaultImpls(impl, f);
      forall c | 0 <= c < limit
        ensures opPresent[c] == IsDefaultOperator(c) && opPrio[c] == DefaultPriority(c)
      {
        assert opPresent[c] == opPresent[..][c] && opPrio[c] == opPrio[..][c];
      }
      forall c: char | IsDefaultOperator(c as int)
        ensures opImpl[c as int] == Some(operatorImpls(c))
      {
        assert opImpl[c as int] == opImpl[..][c as int];
      }
    }

    /** The six `addOperator` calls of `initDefaults`, in order. */
    method RegisterDefaults()
      requires Valid()
      requires forall c :: 0 <= c < limit ==> !commas[c] && !delims[c]
      modifies this, opImpl, opPrio, opPresent
      ensures Valid() && settings == old(settings) && functions == old(functions)
      ensures opPresent[..] == WithDefaults(old(opPresent[..]), true, true, true, true, true, true)
      ensures opPrio[..] == WithDefaults(old(opPrio[..]), 10, 5, 5, 5, 0, 0)
      ensures opImpl[..] == WithDefaults(old(opImpl[..]), Some(operatorImpls('^')), Some(operatorImpls('*')),
        Some(operatorImpls('/')), Some(operatorImpls('%')), Some(operatorImpls('+')), Some(operatorImpls('-')))
    {
      AddBuiltinOperator('^', 10);
      AddBuiltinOperator('*', 5);
      AddBuiltinOperator('/', 5);
      AddBuiltinOperator('%', 5);
      AddBuiltinOperator('+', 0);
      AddBuiltinOperator('-', 0);
    }

    /** One `addOperator` call of `initDefaults`, on a char that is neither
        comma nor delimiter. */
    method AddBuiltinOperator(c: char, priority: nat)
      requires Valid() && c as int < limit && !commas[c as int] && !delims[c as int]
      modifies this, opImpl, opPrio, opPresent
      ensures Valid() && settings == old(settings) && functions == old(functions)
      ensures opPresent[..] == old(opPresent[..])[c as int := true]
      ensures opPrio[..] == old(opPrio[..])[c as int := priority]
      ensures opImpl[..] == old(opImpl[..])[c as int := Some(operatorImpls(c))]
    {
      var r := AddOperator(c, operatorImpls(c), priority);
    }

    /** The loop at the end of `initDefaults`: each name registered with its
        built-in implementation, in order. */
    method AddBuiltins(names: seq<string>)
      requires Valid()
      modifies this, funcNameSearcher
      ensures Valid() && settings == old(settings)
      ensures opIndexByPrio == old(opIndexByPrio) && opIndexMapSize == old(opIndexMapSize)
      ensures forall n :: n in functions <==> n in old(functions) || n in names
      ensures forall n :: n in functions ==>
        functions[n] == if n in names then builtinImpls(n) else old(functions)[n]
    {
      var i := 0;
      while i < |names|
        invariant 0 <= i <= |names|
        invariant Valid() && settings == old(settings)
        invariant opIndexByPrio == old(opIndexByPrio) && opIndexMapSize == old(opIndexMapSize)
        invariant forall n :: n in functions <==> n in old(functions) || n in names[..i]
        invariant forall n :: n in functions ==>
          functions[n] == if n in names[..i] then builtinImpls(n) else old(functions)[n]
      {
        var name := names[i];
        var previous := AddFunction(name, builtinImpls(name));
        assert names[..i + 1] == names[..i] + [name];
        i := i + 1;
      }
      assert names[..i] == names;
    }

    // ---------------------------------------------------------------------
    // Operators
    // ---------------------------------------------------------------------

    /** `addOperator(c, compute, priority)`: refused for a comma or a
        delimiter; otherwise `c` becomes an operator with the priority
        clamped at 0, the ranks are rebuilt, and the replaced pair is
        returned. */
    method AddOperator(c: char, compute: OperatorCompute, priority: int) returns (r: Result<OldOperator>)
      requires Valid()
      modifies this, opImpl, opPrio, opPresent
      ensures Valid()
      ensures functions == old(functions) && functionNames == old(functionNames) && settings == old(settings)
      ensures c as int >= limit ==> r == Err(IndexOutOfBounds)
      ensures c as int < limit && commas[c as int] ==> r == Err(RoleTaken("commas"))
      ensures c as int < limit && !commas[c as int] && delims[c as int] ==> r == Err(RoleTaken("delimiters"))
      ensures r.Ok? <==> c as int < limit && !commas[c as int] && !delims[c as int]
      ensures r.Err? ==> unchanged(opImpl, opPrio, opPresent) && opIndexByPrio == old(opIndexByPrio)
      ensures r.Ok? ==>
        r.value == OldOperator(old(opImpl[c as int]), old(opPrio[c as int])) &&
        opImpl[..] == old(opImpl[..])[c as int := Some(compute)] &&
        opPrio[..] == old(opPrio[..])[c as int := ClampPriority(priority)] &&
        opPresent[..] == old(opPresent[..])[c as int := true]
    {
      var k := c as int;
      if k >= limit {
        return Err(IndexOutOfBounds);
      }
      if commas[k] {
        return Err(RoleTaken("commas"));
      }
      if delims[k] {
        return Err(RoleTaken("delimiters"));
      }
      r := Ok(OldOperator(opImpl[k], opPrio[k]));
      RolesAdd(opImpl[..], opPrio[..], opPresent[..], commas[..], delims[..], k, compute, ClampPriority(priority));
      opImpl[k] := Some(compute);
      opPrio[k] := ClampPriority(priority);
      opPresent[k] := true;
      opIndexByPrio, opIndexMapSize := ComputeRanks(opPresent, opPrio);
    }

    /** `changeOperatorPriority(c, priority)`: the clamped priority is
        stored even for a char that is no operator, and the ranks rebuilt. */
    method ChangeOperatorPriority(c: char, priority: int) returns (o: Outcome)
      requires Valid()
      modifies this, opPrio
      ensures Valid()
      ensures functions == old(functions) && functionNames == old(functionNames) && settings == old(settings)
      ensures o.Fail? <==> c as int >= limit
      ensures o.Fail? ==> o.error == IndexOutOfBounds && unchanged(opPrio) && opIndexByPrio == old(opIndexByPrio)
      ensures o.Pass? ==> opPrio[..] == old(opPrio[..])[c as int := ClampPriority(priority)]
    {
      var k := c as int;
      if k >= limit {
        return Fail(IndexOutOfBounds);
      }
      RolesPriority(opImpl[..], opPrio[..], opPresent[..], commas[..], delims[..], k, ClampPriority(priority));
      opPrio[k] := ClampPriority(priority);
      opIndexByPrio, opIndexMapSize := ComputeRanks(opPresent, opPrio);
      o := Pass;
    }

    /** `removeOperator(c)`: no implementation, priority -1, not present. */
    method RemoveOperator(c: char) returns (o: Outcome)
      requires Valid()
      modifies this, opImpl, opPrio, opPresent
      ensures Valid()
      ensures functions == old(functions) && functionNames == old(functionNames) && settings == old(settings)
      ensures o.Fail? <==> c as int >= limit
      ensures o.Fail? ==> o.error == IndexOutOfBounds && unchanged(opImpl, opPrio, opPresent) &&
                          opIndexByPrio == old(opIndexByPrio)
      ensures o.Pass? ==>
        opImpl[..] == old(opImpl[..])[c as int := None] &&
        opPrio[..] == old(opPrio[..])[c as int := -1] &&
        opPresent[..] == old(opPresent[..])[c as int := false]
    {
      var k := c as int;
      if k >= limit {
        return Fail(IndexOutOfBounds);
      }
      RolesRemove(opImpl[..], opPrio[..], opPresent[..], commas[..], delims[..], k);
      opImpl[k] := None;
      opPrio[k] := -1;
      opPresent[k] := false;
      opIndexByPrio, opIndexMapSize := ComputeRanks(opPresent, opPrio);
      o := Pass;
    }

    /** `getOperatorPriority(c)`: at least 0 for an operator, -1 or more
        otherwise; a char beyond the limit throws. */
    function OperatorPriority(c: char): (r: Result<int>)
      reads this, opImpl, opPrio, opPresent, commas, delims, funcNameSearcher
      requires Valid()
      ensures r.Ok? <==> c as int < limit
      ensures r.Err? ==> r.error == IndexOutOfBounds
      ensures r.Ok? ==> r.value >= -1 && (opPresent[c as int] ==> r.value >= 0)
    {
      if c as int >= limit then Err(IndexOutOfBounds) else Ok(opPrio[c as int])
    }

    /** `isOperator(c)`. */
    function IsOperator(c: char): (r: Result<bool>)
      reads this, opImpl, opPrio, opPresent, commas, delims, funcNameSearcher
      requires Valid()
      ensures r.Ok? <==> c as int < limit
      ensures r.Err? ==> r.error == IndexOutOfBounds
      ensures r == Ok(true) ==> IsComma(c) == Ok(false) && IsDelimiter(c) == Ok(false)
      ensures r == Ok(true) ==> OperatorPriority(c).Ok? && OperatorPriority(c).value >= 0
    {
      if c as int >= limit then Err(IndexOutOfBounds) else Ok(opPresent[c as int])
    }

    // ---------------------------------------------------------------------
    // Commas and delimiters
    // ---------------------------------------------------------------------

    /** `addComma(c)`: refused for an operator or a delimiter; true when `c`
        was not a comma yet. */
    method AddComma(c: char) returns (r: Result<bool>)
      requires Valid()
      modifies commas
      ensures Valid()
      ensures c as int >= limit ==> r == Err(IndexOutOfBounds)
      ensures c as int < limit && opPresent[c as int] ==> r == Err(RoleTaken("operators"))
      ensures c as int < limit && !opPresent[c as int] && delims[c as int] ==> r == Err(RoleTaken("delimiters"))
      ensures r.Ok? <==> c as int < limit && !opPresent[c as int] && !delims[c as int]
      ensures r.Err? ==> unchanged(commas)
      ensures r.Ok? ==> r.value == !old(commas[c as int]) && commas[..] == old(commas[..])[c as int := true]
    {
      var k := c as int;
      if k >= limit {
        return Err(IndexOutOfBounds);
      }
      if opPresent[k] {
        return Err(RoleTaken("operators"));
      }
      if delims[k] {
        return Err(RoleTaken("delimiters"));
      }
      var was := commas[k];
      commas[k] := true;
      r := Ok(!was);
    }

    /** `isComma(c)`. */
    function IsComma(c: char): (r: Result<bool>)
      reads this, commas
      ensures r.Ok? <==> c as int < commas.Length
      ensures r.Err? ==> r.error == IndexOutOfBounds
      ensures r.Ok? ==> (r.value <==> commas[c as int])
    {
      if c as int >= commas.Length then Err(IndexOutOfBounds) else Ok(commas[c as int])
    }

    /** `removeComma(c)`: true when `c` was a comma. */
    method RemoveComma(c: char) returns (r: Result<bool>)
      requires Valid()
      modifies commas
      ensures Valid()
      ensures r.Err? <==> c as int >= limit
      ensures r.Err? ==> r.error == IndexOutOfBounds && unchanged(commas)
      ensures r.Ok? ==> r.value == old(commas[c as int]) && commas[..] == old(commas[..])[c as int := false]
    {
      var k := c as int;
      if k >= limit {
        return Err(IndexOutOfBounds);
      }
      var was := commas[k];
      commas[k] := false;
      r := Ok(was);
    }

    /** `addDelimiter(c)`: refused for an operator or a comma; true when `c`
        was not a delimiter yet. */
    method AddDelimiter(c: char) returns (r: Result<bool>)
      requires Valid()
      modifies delims
      ensures Valid()
      ensures c as int >= limit ==> r == Err(IndexOutOfBounds)
      ensures c as int < limit && opPresent[c as int] ==> r == Err(RoleTaken("operators"))
      ensures c as int < limit && !opPresent[c as int] && commas[c as int] ==> r == Err(RoleTaken("commas"))
      ensures r.Ok? <==> c as int < limit && !opPresent[c as int] && !commas[c as int]
      ensures r.Err? ==> unchanged(delims)
      ensures r.Ok? ==> r.value == !old(delims[c as int]) && delims[..] == old(delims[..])[c as int := true]
    {
      var k := c as int;
      if k >= limit {
        return Err(IndexOutOfBounds);
      }
      if opPresent[k] {
        return Err(RoleTaken("operators"));
      }
      if commas[k] {
        return Err(RoleTaken("commas"));
      }
      var was := delims[k];
      delims[k] := true;
      r := Ok(!was);
    }

    /** `isDelimiter(c)`. */
    function IsDelimiter(c: char): (r: Result<bool>)
      reads this, delims
      ensures r.Ok? <==> c as int < delims.Length
      ensures r.Err? ==> r.error == IndexOutOfBounds
      ensures r.Ok? ==> (r.value <==> delims[c as int])
    {
      if c as int >= delims.Length then Err(IndexOutOfBounds) else Ok(delims[c as int])
    }

    /** `removeDelimiter(c)`: true when `c` was a delimiter. */
    method RemoveDelimiter(c: char) returns (r: Result<bool>)
      requires Valid()
      modifies delims
      ensures Valid()
      ensures r.Err? <==> c as int >= limit
      ensures r.Err? ==> r.error == IndexOutOfBounds && unchanged(delims)
      ensures r.Ok? ==> r.value == old(delims[c as int]) && delims[..] == old(delims[..])[c as int := false]
    {
      var k := c as int;
      if k >= limit {
        return Err(IndexOutOfBounds);
      }
      var was := delims[k];
      delims[k] := false;
      r := Ok(was);
    }

    /** A char is at most one of operator, comma and delimiter. */
    lemma RolesExclusive(c: char)
      requires Valid() && c as int < limit
      ensures !(IsOperator(c) == Ok(true) && IsComma(c) == Ok(true))
      ensures !(IsOperator(c) == Ok(true) && IsDelimiter(c) == Ok(true))
      ensures !(IsComma(c) == Ok(true) && IsDelimiter(c) == Ok(true))
    {
      assert commas[..][c as int] == commas[c as int] && delims[..][c as int] == delims[c as int];
    }

    // ---------------------------------------------------------------------
    // Functions
    // ---------------------------------------------------------------------

    /** `addFunction(id, compute)`: the implementation is replaced and the
        old one returned; a new id is also counted by the prefix index. */
    method AddFunction(id: string, compute: FunctionCompute) returns (r: Option<FunctionCompute>)
      requires Valid()
      modifies this, funcNameSearcher
      ensures Valid()
      ensures settings == old(settings) && opIndexByPrio == old(opIndexByPrio) && opIndexMapSize == old(opIndexMapSize)
      ensures functions == old(functions)[id := compute]
      ensures r == if id in old(functions) then Some(old(functions)[id]) else None
      ensures funcNameSearcher.prefixCounts ==
        if id in old(functions) then old(funcNameSearcher.prefixCounts)
        else WithName(old(funcNameSearcher.prefixCounts), id)
    {
      r := if id in functions then Some(functions[id]) else None;
      functions := functions[id := compute];
      if r.Some? {
        return;
      }
      AddNameTracks(funcNameSearcher.prefixCounts, functionNames, id);
      funcNameSearcher.AddName(id);
      functionNames := functionNames + [id];
    }

    /** `isFunction(id)`. */
    function IsFunction(id: string): (r: bool)
      reads this
      ensures r <==> id in functions
    {
      id in functions
    }

    /** `getFunction(id)`: null for an unknown id. */
    function GetFunction(id: string): (r: Option<FunctionCompute>)
      reads this
      ensures r.Some? <==> id in functions
      ensures r.Some? ==> r.value == functions[id]
    {
      if id in functions then Some(functions[id]) else None
    }

    /** `removeFunction(id)`: the removed implementation, or null when the
        id was unknown (then nothing changes). */
    method RemoveFunction(id: string) returns (r: Option<FunctionCompute>)
      requires Valid()
      modifies this, funcNameSearcher
      ensures Valid()
      ensures settings == old(settings) && opIndexByPrio == old(opIndexByPrio) && opIndexMapSize == old(opIndexMapSize)
      ensures r == if id in old(functions) then Some(old(functions)[id]) else None
      ensures functions == old(functions) - {id}
      ensures funcNameSearcher.prefixCounts ==
        if id in old(functions) then WithoutName(old(funcNameSearcher.prefixCounts), id)
        else old(funcNameSearcher.prefixCounts)
    {
      if id !in functions {
        return None;
      }
      r := Some(functions[id]);
      functions := functions - {id};
      RemoveNameTracks(funcNameSearcher.prefixCounts, functionNames, id);
      RemoveOneDistinct(functionNames, id);
      funcNameSearcher.RemoveName(id);
      functionNames := RemoveOne(functionNames, id);
    }

    /** What the scan relies on: the prefix index answers `exists(p)`
        exactly when some registered function name starts with `p`. */
    lemma PrefixIndexAnswers(p: string)
      requires Valid()
      ensures funcNameSearcher.Exists(p) <==> exists n :: n in functions && IsPrefixOf(p, n)
      ensures !funcNameSearcher.Exists("")
    {
      TracksExists(funcNameSearcher.prefixCounts, functionNames, p);
    }

    // ---------------------------------------------------------------------
    // Options
    // ---------------------------------------------------------------------

    method SetSkipEmptySpace(b: bool)
      modifies this
      ensures settings == old(settings).(skipEmptySpace := b)
      ensures functions == old(functions) && functionNames == old(functionNames)
      ensures opIndexByPrio == old(opIndexByPrio) && opIndexMapSize == old(opIndexMapSize)
    {
      settings := settings.(skipEmptySpace := b);
    }

    method SetDefaultOperator(c: char)
      modifies this
      ensures settings == old(settings).(defaultOperator := c)
      ensures functions == old(functions) && functionNames == old(functionNames)
      ensures opIndexByPrio == old(opIndexByPrio) && opIndexMapSize == old(opIndexMapSize)
    {
      settings := settings.(defaultOperator := c);
    }

    method SetBetweenVariables(c: char)
      modifies this
      ensures settings == old(settings).(betweenVariables := c)
      ensures functions == old(functions) && functionNames == old(functionNames)
      ensures opIndexByPrio == old(opIndexByPrio) && opIndexMapSize == old(opIndexMapSize)
    {
      settings := settings.(betweenVariables := c);
    }

    method SetDefaultValue(d: real)
      modifies this
      ensures settings == old(settings).(defaultValue := d)
      ensures functions == old(functions) && functionNames == old(functionNames)
      ensures opIndexByPrio == old(opIndexByPrio) && opIndexMapSize == old(opIndexMapSize)
    {
      settings := settings.(defaultValue := d);
    }

    /** What evaluation reads of the parser. */
    function Environment(): (env: Env)
      reads this, opImpl, opPrio
      ensures |env.impl| == opImpl.Length && |env.prio| == opPrio.Length
      ensures env.functions == functions && env.defaultOperator == settings.defaultOperator
    {
      Env(opImpl[..], opPrio[..], functions, settings.defaultOperator)
    }

    // ---------------------------------------------------------------------
    // Placing entities
    // ---------------------------------------------------------------------

    /** `getIndexByPriority`: -1 for a priority outside the table, the
        operator's rank in the temporary map otherwise. */
    function Rank(p: int): (r: int)
      reads this
      ensures p < 0 || p >= |opIndexByPrio| ==> r == -1
      ensures 0 <= p < |opIndexByPrio| ==> r == opIndexByPrio[p]
    {
      IndexByPriority(opIndexByPrio, p)
    }

    /** A scope the scan can extend: its lists and its map keep their shapes
        and hold only entities of the heap. */
    ghost predicate Scope(st: ParsingState, h: Heap)
      reads st, h
    {
      h.Valid() && st.Valid() && RefsIn(st.fields, |h.nodes|)
    }

    /** What placing `e` after `operation` leaves in the record: the operator,
        its priority and `e` become the last ones, nothing but the map changes
        besides, and (unless a power follows a power) the bucket of the
        operator's rank ends with `e`. */
    ghost predicate Resolved(f0: Fields, f1: Fields, operation: char, e: Ref)
      reads this, opPrio
    {
      operation as int < opPrio.Length &&
      f1 == f0.(inOperationOrder := f1.inOperationOrder, lastAddedEntity := Some(e),
                lastOperation := operation, lastOperationPriority := opPrio[operation as int]) &&
      (!(operation == '^' && f0.lastOperation == '^') ==>
         var k, s := Rank(opPrio[operation as int]), f1.inOperationOrder.slots;
         0 <= k < |s| && s[k].Some? && EndsWith(s[k].value.elements, [e]))
    }

    /** The placement touches only what `PlacedOnly` lets it. */
    lemma ResolvedPlaced(f0: Fields, f1: Fields, operation: char, e: Ref)
      requires Resolved(f0, f1, operation, e)
      ensures PlacedOnly(f0, f1, false)
    {
    }

    /** `resolveAddition`: the new entity `e`, read after `operation`, is
        placed by comparing the operator's priority with the last one's. The
        record keeps everything except the map and the last operator, its
        priority and entity. */
    method ResolveAddition(st: ParsingState, h: Heap, operation: char, e: Ref) returns (o: Outcome)
      requires Valid() && Scope(st, h)
      requires e < |h.nodes| && BucketsBelow(st.fields.inOperationOrder, e)
      modifies st, h
      ensures h.Valid() && Keeps(old(h.nodes), h.nodes)
      ensures !old(h.nodes)[e].Formula? ==> h.nodes[e] == old(h.nodes)[e]
      ensures operation as int >= limit ==> o == Fail(IndexOutOfBounds)
      ensures o.Fail? ==> Internal(o.error)
      ensures o.Pass? ==> Scope(st, h) && operation as int < limit && Resolved(old(st.fields), st.fields, operation, e)
    {
      if operation as int >= limit {
        return Fail(IndexOutOfBounds);
      }
      var prio := opPrio[operation as int];
      if prio == st.fields.lastOperationPriority {
        o := ResolveSame(st, h, operation, e);
      } else if prio < st.fields.lastOperationPriority {
        o := ResolveLower(st, h, operation, e);
      } else {
        o := ResolveHigher(st, h, operation, e);
      }
    }

    /** The first rule: an operator of the last one's priority joins its
        bucket; two powers in a row are then grouped. */
    method ResolveSame(st: ParsingState, h: Heap, operation: char, e: Ref) returns (o: Outcome)
      requires Valid() && Scope(st, h)
      requires e < |h.nodes| && BucketsBelow(st.fields.inOperationOrder, e)
      requires operation as int < limit && opPrio[operation as int] == st.fields.lastOperationPriority
      modifies st, h
      ensures h.Valid() && Keeps(old(h.nodes), h.nodes) && LeavesKept(old(h.nodes), h.nodes)
      ensures o.Fail? ==> Internal(o.error)
      ensures o.Pass? ==> (Scope(st, h) &&
        st.fields == old(st.fields).(inOperationOrder := st.fields.inOperationOrder, lastAddedEntity := Some(e),
                                     lastOperation := operation))
      ensures o.Pass? ==>
        var k := Rank(old(st.fields.lastOperationPriority));
        var m := MapAdd(old(st.fields.inOperationOrder), k, e);
        m.Ok? &&
        if operation == '^' && old(st.fields.lastOperation) == '^' && |m.value.slots[k].value.elements| >= 3
        then Grouped(m.value, st.fields.inOperationOrder, k, old(h.nodes), h.nodes)
        else st.fields.inOperationOrder == m.value && h.nodes == old(h.nodes)
      ensures o.Pass? ==> Resolved(old(st.fields), st.fields, operation, e)
    {
      var lastOperation := st.fields.lastOperation;
      var k := Rank(st.fields.lastOperationPriority);
      var m := MapAdd(st.fields.inOperationOrder, k, e);
      if m.Err? {
        KeepsRefl(h.nodes);
        return Fail(m.error);
      }
      BucketsAfterAdd(st.fields.inOperationOrder, k, e, |h.nodes|);
      st.fields := st.fields.(inOperationOrder := m.value, lastAddedEntity := Some(e), lastOperation := operation);
      o := GroupAddition(st, h, operation, st.fields.lastOperationPriority, 0, lastOperation);
    }

    /** The second rule: an operator of lower priority starts (or joins) its
        own bucket and becomes the last one. */
    method ResolveLower(st: ParsingState, h: Heap, operation: char, e: Ref) returns (o: Outcome)
      requires Valid() && Scope(st, h)
      requires e < |h.nodes|
      requires operation as int < limit && opPrio[operation as int] < st.fields.lastOperationPriority
      modifies st, h
      ensures h.nodes == old(h.nodes)
      ensures var m := MapAdd(old(st.fields.inOperationOrder), Rank(opPrio[operation as int]), e);
        (o.Pass? <==> m.Ok?) && (o.Fail? ==> o.error == IndexOutOfBounds) &&
        (o.Pass? ==> (Scope(st, h) &&
           st.fields == old(st.fields).(lastOperationPriority := opPrio[operation as int], lastAddedEntity := Some(e),
                                        lastOperation := operation, inOperationOrder := m.value)))
      ensures o.Pass? ==> Resolved(old(st.fields), st.fields, operation, e)
    {
      var lastOperation := st.fields.lastOperation;
      var prio := opPrio[operation as int];
      st.fields := st.fields.(lastOperationPriority := prio, lastAddedEntity := Some(e), lastOperation := operation);
      var m := MapAdd(st.fields.inOperationOrder, Rank(prio), e);
      if m.Err? {
        return Fail(m.error);
      }
      BucketsAfterAdd(st.fields.inOperationOrder, Rank(prio), e, |h.nodes|);
      st.fields := st.fields.(inOperationOrder := m.value);
      o := GroupAddition(st, h, operation, prio, 1, lastOperation);
    }

    /** The third rule: an operator of higher priority takes the last entity
        out of the last bucket and puts it, followed by the new one, into the
        bucket of its own (lower) rank; the entry left first in the old bucket
        is relabelled with the last operator. */
    method ResolveHigher(st: ParsingState, h: Heap, operation: char, e: Ref) returns (o: Outcome)
      requires Valid() && Scope(st, h)
      requires e < |h.nodes| && BucketsBelow(st.fields.inOperationOrder, e)
      requires operation as int < limit && opPrio[operation as int] > st.fields.lastOperationPriority
      modifies st, h
      ensures h.Valid() && Keeps(old(h.nodes), h.nodes) && |h.nodes| == |old(h.nodes)|
      ensures h.nodes[e] == old(h.nodes)[e]
      ensures o.Fail? ==> o.error == IndexOutOfBounds
      ensures o.Pass? ==> Scope(st, h) && HigherDone(old(st.fields), st.fields, old(h.nodes), h.nodes, operation, e)
    {
      var lastOperation := st.fields.lastOperation;
      var lastPriority := st.fields.lastOperationPriority;
      var prio := opPrio[operation as int];
      var f0 := st.fields;
      var g, detached;
      o, g, detached := HigherFields(f0, |h.nodes|, operation, e);
      if !detached {
        KeepsRefl(h.nodes);
        return;
      }
      st.fields := g;
      if o.Pass? {
        o := GroupAfterHigher(st, h, operation, prio, lastOperation);
      }
      // The relabelling of the detached bucket commutes with the steps above:
      // they leave the heap as it is.
      Relabel(h, Bucket(f0.inOperationOrder, Rank(lastPriority)), lastPriority, lastOperation);
    }

    /** The third rule on the record: the last bucket loses its last entry
        (`detached` says whether that bucket could be fetched at all), then
        `AttachHigher`. */
    method HigherFields(f0: Fields, n: nat, operation: char, e: Ref) returns (o: Outcome, g: Fields, detached: bool)
      requires opPrio.Length == opPresent.Length && opIndexByPrio == RankTable(opPresent[..], opPrio[..])
      requires StateOk(f0) && RefsIn(f0, n) && e < n
      requires operation as int < opPrio.Length && opPrio[operation as int] > f0.lastOperationPriority
      ensures detached <==> MapGetOrAdd(f0.inOperationOrder, Rank(f0.lastOperationPriority)).Ok?
      ensures detached ==> Below(Bucket(f0.inOperationOrder, Rank(f0.lastOperationPriority)), n)
      ensures o.Fail? ==> o.error == IndexOutOfBounds
      ensures !detached ==> o.Fail?
      ensures o.Pass? ==> (StateOk(g) && RefsIn(g, n) && Resolved(f0, g, operation, e) &&
        HigherPlaced(f0.inOperationOrder, g.inOperationOrder, Rank(f0.lastOperationPriority),
                     Rank(opPrio[operation as int]), f0.lastAddedEntity, e))
    {
      var k := Rank(f0.lastOperationPriority);
      var d := MapDetachLast(f0.inOperationOrder, k);
      if d.Err? {
        return Fail(d.error), f0, false;
      }
      FieldsDetached(f0, k, n);
      detached := true;
      o, g := AttachHigher(f0.(inOperationOrder := d.value), n, operation, e);
      if o.Pass? {
        HigherResolved(f0, d.value, g, operation, e);
      }
    }

    /** What the third rule leaves: the placement is `Resolved`, the map
        `HigherPlaced`, and the heap relabelled as the detached bucket asks. */
    ghost predicate HigherDone(f0: Fields, f1: Fields, n0: seq<Entity>, n1: seq<Entity>, operation: char, e: Ref)
      reads this, opPrio
    {
      var k1 := Rank(f0.lastOperationPriority);
      Resolved(f0, f1, operation, e) &&
      HigherPlaced(f0.inOperationOrder, f1.inOperationOrder, k1, Rank(opPrio[operation as int]), f0.lastAddedEntity, e) &&
      Below(Bucket(f0.inOperationOrder, k1), |n0|) &&
      n1 == Relabelled(n0, Bucket(f0.inOperationOrder, k1), f0.lastOperationPriority, f0.lastOperation)
    }

    /** `groupAddition` after the third rule, which it leaves as it is. */
    method GroupAfterHigher(st: ParsingState, h: Heap, operation: char, prio: int, lastOperation: char)
      returns (o: Outcome)
      requires Valid() && Scope(st, h)
      modifies st, h
      ensures o == Pass && st.fields == old(st.fields) && h.nodes == old(h.nodes)
    {
      o := GroupAddition(st, h, operation, prio, 2, lastOperation);
    }

    /** What the two halves of the third rule leave in the record: the map
        is `HigherPlaced` and the placement is `Resolved`. */
    lemma HigherResolved(f0: Fields, detached: MapModel<Ref>, g: Fields, operation: char, e: Ref)
      requires opPrio.Length == opPresent.Length && opIndexByPrio == RankTable(opPresent[..], opPrio[..])
      requires StateOk(f0)
      requires operation as int < opPrio.Length && opPrio[operation as int] > f0.lastOperationPriority
      requires var d := MapDetachLast(f0.inOperationOrder, Rank(f0.lastOperationPriority));
        d.Ok? && detached == d.value
      requires var k := Rank(opPrio[operation as int]);
        MapGetOrAdd(detached, k).Ok? && AddPair(MapGetOrAdd(detached, k).value, k, f0.lastAddedEntity, e).Ok? &&
        g == f0.(inOperationOrder := AddPair(MapGetOrAdd(detached, k).value, k, f0.lastAddedEntity, e).value,
                 lastAddedEntity := Some(e), lastOperation := operation,
                 lastOperationPriority := opPrio[operation as int])
      ensures HigherPlaced(f0.inOperationOrder, g.inOperationOrder, Rank(f0.lastOperationPriority),
                           Rank(opPrio[operation as int]), f0.lastAddedEntity, e)
      ensures Resolved(f0, g, operation, e)
    {
      var prio, lastPriority := opPrio[operation as int], f0.lastOperationPriority;
      assert 0 <= Rank(prio) < Rank(lastPriority) by {
        RankDescending(opPresent[..], opPrio[..], lastPriority, prio);
      }
      HigherPlacedIntro(f0.inOperationOrder, Rank(lastPriority), Rank(prio), f0.lastAddedEntity, e);
      EndsWithLast(g.inOperationOrder.slots[Rank(prio)].value.elements, Pair(f0.lastAddedEntity, e));
    }

    /** The relabelling of the third rule: the first entry of a bucket that
        keeps an entry after losing its last one takes the last operator,
        unless the bucket's priority is 0. */
    method Relabel(h: Heap, es: seq<Ref>, priority: int, lastOperation: char)
      requires h.Valid() && Below(es, |h.nodes|)
      modifies h
      ensures h.Valid() && Keeps(old(h.nodes), h.nodes)
      ensures h.nodes == Relabelled(old(h.nodes), es, priority, lastOperation)
    {
      if |es| >= 2 && priority > 0 {
        KeepsSymbol(h.nodes, es[0], lastOperation);
        h.SetPrecedentSymbol(es[0], lastOperation);
      } else {
        KeepsRefl(h.nodes);
      }
    }

    /** The second half of the third rule: the operator and its priority
        become the last ones, and the bucket of its rank receives the last
        entity (when there is one) and then `e`. */
    method AttachHigher(f: Fields, n: nat, operation: char, e: Ref) returns (o: Outcome, g: Fields)
      requires StateOk(f) && RefsIn(f, n) && e < n && operation as int < opPrio.Length
      ensures o.Fail? ==> o.error == IndexOutOfBounds
      ensures var m, k := f.inOperationOrder, Rank(opPrio[operation as int]);
        o.Pass? ==>
          MapGetOrAdd(m, k).Ok? && AddPair(MapGetOrAdd(m, k).value, k, f.lastAddedEntity, e).Ok? &&
          StateOk(g) && RefsIn(g, n) &&
          g == f.(inOperationOrder := AddPair(MapGetOrAdd(m, k).value, k, f.lastAddedEntity, e).value,
                  lastAddedEntity := Some(e), lastOperation := operation,
                  lastOperationPriority := opPrio[operation as int])
    {
      var prio := opPrio[operation as int];
      g := f.(lastOperationPriority := prio, lastOperation := operation);
      var k := Rank(prio);
      var a := MapGetOrAdd(g.inOperationOrder, k);
      if a.Err? {
        return Fail(a.error), g;
      }
      var c := AddPair(a.value, k, g.lastAddedEntity, e);
      if c.Err? {
        return Fail(c.error), g;
      }
      BucketsAfterPair(g.inOperationOrder, k, g.lastAddedEntity, e, n);
      g := g.(inOperationOrder := c.value, lastAddedEntity := Some(e));
      o := Pass;
    }

    /** `groupAddition`: only after the first rule (`op == 0`) placed a power
        that follows a power, and only when the bucket of `prio` then holds
        three entries or more, are its last two grouped (`GroupLastTwo`). */
    method GroupAddition(st: ParsingState, h: Heap, operation: char, prio: int, op: int, lastOperation: char)
      returns (o: Outcome)
      requires Valid() && Scope(st, h)
      modifies st, h
      ensures h.Valid() && Keeps(old(h.nodes), h.nodes) && LeavesKept(old(h.nodes), h.nodes)
      ensures o.Fail? ==> Internal(o.error)
      ensures o.Pass? ==> Scope(st, h) && st.fields == old(st.fields).(inOperationOrder := st.fields.inOperationOrder)
      ensures !(op == 0 && operation == '^' && lastOperation == '^') ==>
        o.Pass? && st.fields == old(st.fields) && h.nodes == old(h.nodes)
      ensures op == 0 && operation == '^' && lastOperation == '^' ==>
        PowerGrouping(o, Rank(prio), old(st.fields.inOperationOrder), st.fields.inOperationOrder, old(h.nodes), h.nodes)
    {
      if op != 0 || operation != '^' || lastOperation != '^' {
        KeepsRefl(h.nodes);
        return Pass;
      }
      o := GroupPower(st, h, prio);
    }

    /** `groupAddition` after a power that follows a power. */
    method GroupPower(st: ParsingState, h: Heap, prio: int) returns (o: Outcome)
      requires Valid() && Scope(st, h)
      modifies st, h
      ensures h.Valid() && Keeps(old(h.nodes), h.nodes) && LeavesKept(old(h.nodes), h.nodes)
      ensures o.Fail? ==> Internal(o.error)
      ensures o.Pass? ==> Scope(st, h) && st.fields == old(st.fields).(inOperationOrder := st.fields.inOperationOrder)
      ensures PowerGrouping(o, Rank(prio), old(st.fields.inOperationOrder), st.fields.inOperationOrder, old(h.nodes), h.nodes)
    {
      KeepsRefl(h.nodes);
      var k := Rank(prio);
      var m := st.fields.inOperationOrder;
      if k < 0 || k >= |m.slots| {
        return Fail(IndexOutOfBounds);
      }
      if m.slots[k].None? {
        return Fail(NullReference);
      }
      if |m.slots[k].value.elements| < 3 {
        return Pass;
      }
      o := GroupLastTwo(st, h, k);
    }

    /** The heap side of grouping onto a formula operand `e2`. */
    method PowerIntoFormula(h: Heap, e2: Ref, e1: Ref) returns (o: Outcome)
      requires h.Valid() && e2 < |h.nodes| && h.nodes[e2].Formula? && e1 < |h.nodes|
      modifies h
      ensures h.Valid() && Keeps(old(h.nodes), h.nodes) && LeavesKept(old(h.nodes), h.nodes)
      ensures o.Fail? ==> Internal(o.error)
      ensures o.Pass? ==> GroupedIntoFormula(old(h.nodes), e2, e1, |old(h.nodes)|) == Ok(Step(Pass, h.nodes))
    {
      ghost var nodes0 := h.nodes;
      var fuel := |h.nodes|;
      ghost var g := GroupedIntoFormula(nodes0, e2, e1, fuel);
      var gl := GetLast(h.nodes, e2, fuel);
      if gl.Err? {
        KeepsRefl(h.nodes);
        return Fail(gl.error);
      }
      var p := NewNestedFormula(h, '^', [gl.value, e1], [gl.value, e1], []);
      assert h.nodes == nodes0 + [PowFormula(gl.value, e1)];
      o := SetLast(h, e2, p, fuel);
      assert g.Ok? && g.value == Step(o, h.nodes);
      if o.Fail? {
        KeepsAppend(nodes0, PowFormula(gl.value, e1));
        KeepsSetLast(nodes0 + [PowFormula(gl.value, e1)], e2, p, fuel);
        KeepsTrans(nodes0, nodes0 + [PowFormula(gl.value, e1)], h.nodes);
        LeavesTrans(nodes0, nodes0 + [PowFormula(gl.value, e1)], h.nodes);
      }
    }

    /** The entity that replaces the last two entries `e2`, `e1` of a bucket:
        `e2` itself when it is a formula (the power goes inside it), and
        otherwise a new formula `e2 ^ e1`. */
    method PowerOf(h: Heap, e2: Ref, e1: Ref) returns (o: Outcome, toAdd: Ref)
      requires h.Valid() && e2 < |h.nodes| && e1 < |h.nodes|
      modifies h
      ensures h.Valid() && Keeps(old(h.nodes), h.nodes) && LeavesKept(old(h.nodes), h.nodes)
      ensures o.Fail? ==> Internal(o.error)
      ensures !old(h.nodes)[e2].Formula? ==> o.Pass?
      ensures o.Pass? ==> PowerBuilt(old(h.nodes), h.nodes, e2, e1, toAdd)
    {
      toAdd := e2;
      if h.nodes[e2].Formula? {
        o := PowerIntoFormula(h, e2, e1);
      } else {
        ghost var nodes0 := h.nodes;
        toAdd := NewNestedFormula(h, '^', [e2, e1], [e2, e1], []);
        KeepsAppend(nodes0, PowFormula(e2, e1));
        o := Pass;
      }
    }

    method GroupLastTwo(st: ParsingState, h: Heap, k: int) returns (o: Outcome)
      requires Valid() && Scope(st, h)
      requires var m := st.fields.inOperationOrder;
        0 <= k < |m.slots| && m.slots[k].Some? && |m.slots[k].value.elements| >= 3
      modifies st, h
      ensures h.Valid() && Keeps(old(h.nodes), h.nodes) && LeavesKept(old(h.nodes), h.nodes)
      ensures o.Fail? ==> Internal(o.error)
      ensures o.Pass? ==> Scope(st, h) && st.fields == old(st.fields).(inOperationOrder := st.fields.inOperationOrder)
      ensures o.Pass? ==> Grouped(old(st.fields.inOperationOrder), st.fields.inOperationOrder, k, old(h.nodes), h.nodes)
    {
      var es := st.fields.inOperationOrder.slots[k].value.elements;
      var e2, e1 := es[|es| - 2], es[|es| - 1];
      ghost var nodes0 := h.nodes;
      var toAdd;
      o, toAdd := PowerOf(h, e2, e1);
      if o.Fail? {
        return;
      }
      RefsGrow(st.fields, |nodes0|, |h.nodes|);
      RegroupBucket(st, h, k, e2, e1, toAdd, nodes0);
    }

    /** The bucket side of grouping: the last two entries give way to
        `toAdd`, built from them on the heap `before`. */
    method RegroupBucket(st: ParsingState, h: Heap, k: int, e2: Ref, e1: Ref, toAdd: Ref, ghost before: seq<Entity>)
      requires Scope(st, h) && Closed(before) && |before| <= |h.nodes|
      requires var m := st.fields.inOperationOrder;
        0 <= k < |m.slots| && m.slots[k].Some? && |m.slots[k].value.elements| >= 3 &&
        Below(m.slots[k].value.elements, |before|)
      requires var es := st.fields.inOperationOrder.slots[k].value.elements;
        e2 == es[|es| - 2] && e1 == es[|es| - 1]
      requires PowerBuilt(before, h.nodes, e2, e1, toAdd)
      modifies st
      ensures Scope(st, h) && st.fields == old(st.fields).(inOperationOrder := st.fields.inOperationOrder)
      ensures Grouped(old(st.fields.inOperationOrder), st.fields.inOperationOrder, k, before, h.nodes)
    {
      var m := st.fields.inOperationOrder;
      var list := m.slots[k].value;
      var n := |list.elements|;
      var rest := ListRemoveLast(ListRemoveLast(list));
      assert rest.elements == list.elements[..n - 2];
      var added := ListAdd(rest, toAdd);
      assert added.value.elements == list.elements[..n - 2] + [toAdd];
      st.fields := st.fields.(inOperationOrder := WithSlot(m, k, added.value));
      GroupedIntro(m, k, added.value, toAdd, before, h.nodes);
    }

    /** `preResolve`: the first entity of a scope opens the bucket of
        priority 0 and sets the last operator; every later one is placed by
        `resolveAddition`. The entity is then appended to `inOrder`, and the
        pending literal and operator are forgotten when asked. */
    method PreResolve(st: ParsingState, h: Heap, e: Ref, c: char, reset: bool) returns (o: Outcome)
      requires Valid() && Scope(st, h)
      requires e < |h.nodes| && BucketsBelow(st.fields.inOperationOrder, e)
      modifies st, h
      ensures h.Valid() && Keeps(old(h.nodes), h.nodes)
      ensures !old(h.nodes)[e].Formula? ==> h.nodes[e] == old(h.nodes)[e]
      ensures o.Fail? ==> Internal(o.error)
      ensures o.Pass? ==> (Scope(st, h) && PlacedOnly(old(st.fields), st.fields, reset) &&
        st.fields.inOrder.elements == old(st.fields.inOrder.elements) + [e] &&
        st.fields.lastAddedEntity == Some(e) && st.fields.lastOperation == c)
      ensures old(st.fields.lastAddedEntity).None? ==>
        var m := MapAdd(old(st.fields.inOperationOrder), Rank(0), e);
        h.nodes == old(h.nodes) && (o.Pass? <==> m.Ok?) &&
        (o.Pass? ==> st.fields.lastOperationPriority == 0 && st.fields.inOperationOrder == m.value)
      ensures old(st.fields.lastAddedEntity).Some? && o.Pass? ==>
        c as int < limit && st.fields.lastOperationPriority == opPrio[c as int]
    {
      o := Place(st, h, e, c);
      if o.Pass? {
        ghost var placed := st.fields;
        Record(st, h, e, reset);
        PlacedTrans(old(st.fields), placed, st.fields, reset);
      }
    }

    /** The placing half of `preResolve`: by priority after an earlier
        entity, or as the first one. */
    method Place(st: ParsingState, h: Heap, e: Ref, c: char) returns (o: Outcome)
      requires Valid() && Scope(st, h)
      requires e < |h.nodes| && BucketsBelow(st.fields.inOperationOrder, e)
      modifies st, h
      ensures h.Valid() && Keeps(old(h.nodes), h.nodes)
      ensures !old(h.nodes)[e].Formula? ==> h.nodes[e] == old(h.nodes)[e]
      ensures o.Fail? ==> Internal(o.error)
      ensures o.Pass? ==> (Scope(st, h) && PlacedOnly(old(st.fields), st.fields, false) &&
        st.fields.inOrder == old(st.fields.inOrder) &&
        st.fields.lastAddedEntity == Some(e) && st.fields.lastOperation == c)
      ensures old(st.fields.lastAddedEntity).None? ==>
        var m := MapAdd(old(st.fields.inOperationOrder), Rank(0), e);
        h.nodes == old(h.nodes) && (o.Pass? <==> m.Ok?) &&
        (o.Pass? ==> st.fields.lastOperationPriority == 0 && st.fields.inOperationOrder == m.value)
      ensures old(st.fields.lastAddedEntity).Some? && o.Pass? ==>
        c as int < limit && st.fields.lastOperationPriority == opPrio[c as int]
    {
      if st.fields.lastAddedEntity.Some? {
        o := ResolveAddition(st, h, c, e);
        if o.Pass? {
          ResolvedPlaced(old(st.fields), st.fields, c, e);
        }
      } else {
        KeepsRefl(h.nodes);
        o := PlaceFirst(st, h, e, c);
      }
    }

    /** The first entity of a scope: it opens the bucket of priority 0. */
    method PlaceFirst(st: ParsingState, h: Heap, e: Ref, c: char) returns (o: Outcome)
      requires Valid() && Scope(st, h)
      requires e < |h.nodes| && BucketsBelow(st.fields.inOperationOrder, e)
      modifies st
      ensures var m := MapAdd(old(st.fields.inOperationOrder), Rank(0), e);
        (o.Pass? <==> m.Ok?) &&
        (o.Fail? ==> o.error == IndexOutOfBounds && st.fields == old(st.fields)) &&
        (o.Pass? ==> (Scope(st, h) &&
           st.fields == old(st.fields).(lastAddedEntity := Some(e), lastOperationPriority := 0,
                                        lastOperation := c, inOperationOrder := m.value)))
    {
      var m := MapAdd(st.fields.inOperationOrder, Rank(0), e);
      if m.Err? {
        return Fail(m.error);
      }
      BucketsAfterAdd(st.fields.inOperationOrder, Rank(0), e, |h.nodes|);
      st.fields := st.fields.(lastAddedEntity := Some(e), lastOperationPriority := 0, lastOperation := c,
                              inOperationOrder := m.value);
      o := Pass;
    }

    /** The end of `preResolve`: the placed entity joins `inOrder`. */
    method Record(st: ParsingState, h: Heap, e: Ref, reset: bool)
      requires Scope(st, h) && e < |h.nodes|
      modifies st
      ensures Scope(st, h) && PlacedOnly(old(st.fields), st.fields, reset)
      ensures st.fields.inOrder.elements == old(st.fields.inOrder.elements) + [e]
      ensures st.fields.lastAddedEntity == old(st.fields.lastAddedEntity)
      ensures st.fields.lastOperation == old(st.fields.lastOperation)
      ensures st.fields.lastOperationPriority == old(st.fields.lastOperationPriority)
      ensures st.fields.inOperationOrder == old(st.fields.inOperationOrder)
    {
      st.fields := st.fields.(inOrder := ListAdd(st.fields.inOrder, e).value);
      if reset {
        st.Reset();
      }
    }

    /** `addStaticVariable`: the pending literal becomes a new entity, signed
        by `formatStatic` and preceded by the pending operator (the default
        one when none is pending or it is a minus), and is placed under that
        operator. Java unboxes a missing literal and throws. */
    method AddStaticVariable(st: ParsingState, h: Heap, reset: bool) returns (o: Outcome)
      requires Valid() && Scope(st, h)
      modifies st, h
      ensures h.Valid() && Keeps(old(h.nodes), h.nodes)
      ensures old(st.fields.currentValue).None? ==>
        o == Fail(NullReference) && h.nodes == old(h.nodes) && st.fields == old(st.fields)
      ensures o.Fail? ==> Internal(o.error)
      ensures o.Pass? ==>
        var f := old(st.fields);
        var op := if f.currentOperation.Some? then f.currentOperation.value else settings.defaultOperator;
        var x := |old(h.nodes)|;
        Scope(st, h) && x < |h.nodes| && f.currentValue.Some? &&
        h.nodes[x] == StaticVariable(FormatStatic(f.isNegative, f.currentValue.value),
                                     if op == '-' then settings.defaultOperator else op) &&
        st.fields.inOrder.elements == f.inOrder.elements + [x] && st.fields.lastAddedEntity == Some(x) &&
        st.fields.lastOperation == op && PlacedOnly(f, st.fields, reset)
    {
      var cv := st.fields.currentValue;
      if cv.None? {
        KeepsRefl(h.nodes);
        return Fail(NullReference);
      }
      var operation := if st.fields.currentOperation.Some? then st.fields.currentOperation.value else settings.defaultOperator;
      var sv := StaticVariable(FormatStatic(st.fields.isNegative, cv.value),
                               if operation == '-' then settings.defaultOperator else operation);
      ghost var nodes0 := h.nodes;
      var e := h.New(sv);
      KeepsAppend(nodes0, sv);
      RefsGrow(st.fields, |nodes0|, |h.nodes|);
      o := PreResolve(st, h, e, operation, reset);
      KeepsTrans(nodes0, nodes0 + [sv], h.nodes);
    }

    /** `addVariable`: a variable letter becomes a new entity, preceded by the
        between-variables operator right after a literal and otherwise by the
        pending one (a minus is stored as the default operator, the sign going
        to the negation flag), and is placed under that operator. */
    method AddVariable(st: ParsingState, h: Heap, c: char) returns (o: Outcome)
      requires Valid() && Scope(st, h)
      modifies st, h
      ensures h.Valid() && Keeps(old(h.nodes), h.nodes)
      ensures old(st.fields.currentValue).None? ==>
        o == Fail(NullReference) && h.nodes == old(h.nodes) && st.fields == old(st.fields)
      ensures o.Fail? ==> Internal(o.error)
      ensures o.Pass? ==>
        var f := old(st.fields);
        var op := if f.currentValue != Some(0.0) then settings.betweenVariables
                  else if f.currentOperation.Some? then f.currentOperation.value else settings.defaultOperator;
        var x := |old(h.nodes)|;
        Scope(st, h) && x < |h.nodes| &&
        h.nodes[x] == NewReplaceable(c, if op != '-' then op else settings.defaultOperator, f.isNegative) &&
        st.fields.inOrder.elements == f.inOrder.elements + [x] && st.fields.lastAddedEntity == Some(x) &&
        st.fields.lastOperation == op && PlacedOnly(f, st.fields, true)
    {
      var cv := st.fields.currentValue;
      if cv.None? {
        KeepsRefl(h.nodes);
        return Fail(NullReference);
      }
      var operation := if cv.value != 0.0 then settings.betweenVariables
                       else if st.fields.currentOperation.Some? then st.fields.currentOperation.value
                       else settings.defaultOperator;
      var rv := NewReplaceable(c, if operation != '-' then operation else settings.defaultOperator, st.fields.isNegative);
      ghost var nodes0 := h.nodes;
      var e := h.New(rv);
      KeepsAppend(nodes0, rv);
      RefsGrow(st.fields, |nodes0|, |h.nodes|);
      o := PreResolve(st, h, e, operation, true);
      KeepsTrans(nodes0, nodes0 + [rv], h.nodes);
    }

    /** `finishFormula`: the pending literal is added, then the scope's
        entities become a formula (see `BuildFormula`). */
    method FinishFormula(st: ParsingState, h: Heap, c: Option<char>) returns (r: Result<Ref>)
      requires Valid() && Scope(st, h)
      modifies st, h
      ensures h.Valid() && (r.Ok? ==> Keeps(old(h.nodes), h.nodes))
      ensures r.Err? ==> Internal(r.error)
      ensures old(st.fields.currentValue).None? && (c.Some? || old(st.fields.inOrder.elements) == []) ==> r.Ok?
      ensures r.Ok? ==> (Scope(st, h) && |old(h.nodes)| <= r.value && r.value + 1 == |h.nodes| &&
        h.nodes[r.value].Formula? && h.nodes[r.value].root.None? &&
        h.nodes[r.value].precedentSymbol == (if c.Some? then c.value else settings.defaultOperator) &&
        h.nodes[r.value].inOrder == st.fields.inOrder.elements &&
        st.fields.inOrder.elements ==
          old(st.fields.inOrder.elements) + (if old(st.fields.currentValue).Some? then [|old(h.nodes)|] else []) &&
        PlacedOnly(old(st.fields), st.fields, false))
      ensures r.Ok? && old(st.fields.currentValue).None? ==>
        FormulaOfScope(old(st.fields), st.fields, h.nodes[r.value])
    {
      ghost var nodes0 := h.nodes;
      KeepsRefl(h.nodes);
      if st.fields.currentValue.Some? {
        var o := AddStaticVariable(st, h, false);
        if o.Fail? {
          return Err(o.error);
        }
      }
      ghost var nodes1 := h.nodes;
      r := BuildFormula(st, h, c);
      if r.Ok? {
        KeepsTrans(nodes0, nodes1, h.nodes);
      }
    }

    /** The end of `finishFormula`: the bucket of the highest rank (the
        lowest priority) is detached as `lowestPriority`, the other buckets
        are joined in rank order, and the formula over the scope's entities
        is a nested one preceded by `c`, or, with no `c`, the root formula,
        preceded by the default operator, which takes the table of its
        variables and becomes the root of every entity it reaches. */
    method BuildFormula(st: ParsingState, h: Heap, c: Option<char>) returns (r: Result<Ref>)
      requires Valid() && Scope(st, h)
      modifies st, h
      ensures h.Valid() && (r.Ok? ==> Keeps(old(h.nodes), h.nodes))
      ensures r.Err? ==> r.error == OutOfFuel
      ensures c.Some? || old(st.fields.inOrder.elements) == [] ==> r.Ok?
      ensures r.Ok? ==> (Scope(st, h) && r.value == |old(h.nodes)| && r.value + 1 == |h.nodes| &&
        h.nodes[r.value].Formula? && h.nodes[r.value].root.None? &&
        h.nodes[r.value].precedentSymbol == (if c.Some? then c.value else settings.defaultOperator) &&
        h.nodes[r.value].inOrder == st.fields.inOrder.elements &&
        st.fields == old(st.fields).(inOperationOrder := st.fields.inOperationOrder) &&
        FormulaOfScope(old(st.fields), st.fields, h.nodes[r.value]))
    {
      var joined, lowest := SplitScope(st, h);
      ghost var nodes0 := h.nodes;
      if c.Some? {
        r := NestedOfScope(h, c.value, st.fields.inOrder.elements, joined, lowest);
      } else {
        r := RootOfScope(h, settings.defaultOperator, st.fields.inOrder.elements, joined, lowest);
      }
      if r.Ok? {
        RefsGrow(st.fields, |nodes0|, |h.nodes|);
      }
    }

    /** The start of `finishFormula`: the bucket of the lowest priority is
        detached, and the other buckets are joined in rank order. */
    method SplitScope(st: ParsingState, h: Heap) returns (joined: seq<Ref>, lowest: seq<Ref>)
      requires Scope(st, h)
      modifies st
      ensures var split := MapGetAndRemoveLast(old(st.fields.inOperationOrder));
        Scope(st, h) && st.fields == old(st.fields).(inOperationOrder := split.1) &&
        joined == MapJoined(split.1.slots, |split.1.slots|) &&
        lowest == (if split.0.Some? then split.0.value.elements else [])
      ensures Below(joined, |h.nodes|) && Below(lowest, |h.nodes|) && Below(st.fields.inOrder.elements, |h.nodes|)
    {
      var split := MapGetAndRemoveLast(st.fields.inOperationOrder);
      st.fields := st.fields.(inOperationOrder := split.1);
      joined := MapJoined(split.1.slots, |split.1.slots|);
      JoinedBelow(split.1.slots, |split.1.slots|, |h.nodes|);
      lowest := if split.0.Some? then split.0.value.elements else [];
    }

    /** A scope's entities become a new nested formula. */
    method NestedOfScope(h: Heap, symbol: char, inOrder: seq<Ref>, joined: seq<Ref>, lowest: seq<Ref>) returns (r: Result<Ref>)
      requires h.Valid() && Below(inOrder, |h.nodes|) && Below(joined, |h.nodes|) && Below(lowest, |h.nodes|)
      modifies h
      ensures h.Valid() && Keeps(old(h.nodes), h.nodes) && r.Ok?
      ensures r.value == |old(h.nodes)| && r.value + 1 == |h.nodes| &&
        h.nodes[r.value].Formula? && h.nodes[r.value].root.None? && h.nodes[r.value].precedentSymbol == symbol &&
        h.nodes[r.value].inOrder == inOrder && h.nodes[r.value].inOperationOrder == joined &&
        h.nodes[r.value].lowestPriority == lowest
    {
      ghost var nodes0 := h.nodes;
      var f := NewNestedFormula(h, symbol, inOrder, joined, lowest);
      KeepsAppend(nodes0, h.nodes[f]);
      r := Ok(f);
    }

    /** A scope's entities become a new root formula, with fuel for every
        entity of the heap. */
    method RootOfScope(h: Heap, symbol: char, inOrder: seq<Ref>, joined: seq<Ref>, lowest: seq<Ref>) returns (r: Result<Ref>)
      requires h.Valid() && Below(inOrder, |h.nodes|) && Below(joined, |h.nodes|) && Below(lowest, |h.nodes|)
      modifies h
      ensures h.Valid() && (r.Ok? ==> Keeps(old(h.nodes), h.nodes))
      ensures r.Err? ==> r.error == OutOfFuel
      ensures inOrder == [] ==> r.Ok?
      ensures r.Ok? ==> (r.value == |old(h.nodes)| && r.value + 1 == |h.nodes| &&
        h.nodes[r.value].Formula? && h.nodes[r.value].root.None? && h.nodes[r.value].precedentSymbol == symbol &&
        h.nodes[r.value].inOrder == inOrder && h.nodes[r.value].inOperationOrder == joined &&
        h.nodes[r.value].lowestPriority == lowest)
    {
      ghost var nodes0 := h.nodes;
      r := NewRootFormula(h, symbol, inOrder, joined, lowest, None, |h.nodes|);
      if r.Ok? {
        ghost var names := TableNames(nodes0, inOrder, |nodes0|).value;
        ghost var F := RootFormula(symbol, inOrder, joined, lowest, names, None);
        KeepsRooted(nodes0, ReachList(nodes0, inOrder, |nodes0|), r.value, inOrder, F.variableIndex, F);
      }
    }

    /** `addFuncVariable`: the argument read so far becomes a formula,
        preceded by the operator before the function's parenthesis, and is
        appended to the function's arguments; the scope starts afresh. */
    method AddFuncVariable(st: ParsingState, h: Heap) returns (o: Outcome)
      requires Valid() && Scope(st, h)
      modifies st, h
      ensures h.Valid() && (o.Pass? ==> Keeps(old(h.nodes), h.nodes))
      ensures o.Fail? ==> Internal(o.error)
      ensures o.Pass? ==> Scope(st, h) && ArgumentAdded(old(st.fields), st.fields, old(h.nodes), h.nodes)
    {
      o := st.Dump();
      if o.Fail? {
        return;
      }
      RefsDumped(old(st.fields), |h.nodes|);
      o := FinishArgument(st, h);
    }

    /** The dumped scope `st` becomes a formula that is appended to the
        arguments. */
    method FinishArgument(st: ParsingState, h: Heap) returns (o: Outcome)
      requires Valid() && Scope(st, h)
      modifies st, h
      ensures h.Valid() && (o.Pass? ==> Keeps(old(h.nodes), h.nodes))
      ensures o.Fail? ==> Internal(o.error)
      ensures o.Pass? ==> Scope(st, h) && ArgumentAdded(old(st.fields), st.fields, old(h.nodes), h.nodes)
    {
      var f := FinishFormula(st, h, Some(st.fields.parenthesesOperation));
      if f.Err? {
        return Fail(f.error);
      }
      assert st.fields.funcString == old(st.fields.funcString) && st.fields.isFunc == old(st.fields.isFunc);
      assert st.fields.funVars == old(st.fields.funVars);
      st.PushArgument(f.value, settings.defaultOperator);
      o := Pass;
    }

    /** `addState`: a closing parenthesis ends the scope `cur`, and its
        entities become one entity of the enclosing scope `parent`: a nested
        formula when no function was named before the parenthesis, otherwise
        a call of that function on the arguments collected. The entity's
        preceding operator is the scope's own, except that a minus becomes
        the default operator unless the enclosing scope is negated; it is
        placed under the scope's own operator like any other entity, and the
        enclosing scope's pending literal is forgotten. */
    method AddState(cur: ParsingState, parent: ParsingState, h: Heap) returns (o: Outcome)
      requires Valid() && cur != parent && Scope(cur, h) && Scope(parent, h)
      modifies cur, parent, h
      ensures h.Valid() && (o.Pass? ==> Keeps(old(h.nodes), h.nodes))
      ensures o.Fail? ==> Internal(o.error)
      ensures o.Pass? ==> (Scope(parent, h) && parent.fields.lastAddedEntity.Some? &&
        var t := parent.fields.lastAddedEntity.value;
        var pOp := old(cur.fields.parenthesesOperation);
        var op := if pOp == '-' then (if old(parent.fields.isNegative) then '-' else settings.defaultOperator) else pOp;
        |old(h.nodes)| <= t < |h.nodes| &&
        parent.fields.inOrder.elements == old(parent.fields.inOrder.elements) + [t] &&
        parent.fields.lastOperation == pOp && PlacedOnly(old(parent.fields), parent.fields, true) &&
        (old(parent.fields.func) ==>
           h.nodes[t] == Function(old(parent.fields.funcString), old(cur.fields.funVars.elements), op)) &&
        (!old(parent.fields.func) ==> h.nodes[t].Formula?))
    {
      ghost var nodes0 := h.nodes;
      o := cur.Dump();
      if o.Fail? {
        KeepsRefl(h.nodes);
        return;
      }
      RefsDumped(old(cur.fields), |h.nodes|);
      var pOp := cur.fields.parenthesesOperation;
      var op := if pOp == '-' then (if parent.fields.isNegative then '-' else settings.defaultOperator) else pOp;
      var t := ScopeEntity(cur, h, parent.fields.func, parent.fields.funcString, op);
      if t.Err? {
        return Fail(t.error);
      }
      ghost var nodes1 := h.nodes;
      RefsGrow(parent.fields, |nodes0|, |h.nodes|);
      o := PlaceScope(parent, h, pOp, t.value);
      KeepsTrans(nodes0, nodes1, h.nodes);
    }

    /** The entity a closed scope becomes: a nested formula (when `isCall`
        is false) or a call of `name` on the scope's arguments. */
    method ScopeEntity(cur: ParsingState, h: Heap, isCall: bool, name: string, op: char) returns (r: Result<Ref>)
      requires Valid() && Scope(cur, h)
      modifies cur, h
      ensures h.Valid() && (r.Ok? ==> Keeps(old(h.nodes), h.nodes))
      ensures r.Err? ==> Internal(r.error)
      ensures isCall ==> r.Ok? && r.value == |old(h.nodes)| && |h.nodes| == r.value + 1 &&
                         h.nodes[r.value] == Function(name, old(cur.fields.funVars.elements), op)
      ensures !isCall && r.Ok? ==> (|old(h.nodes)| <= r.value && r.value + 1 == |h.nodes| &&
        h.nodes[r.value].Formula? && h.nodes[r.value].precedentSymbol == op)
    {
      if !isCall {
        r := FinishFormula(cur, h, Some(op));
        return;
      }
      var call := NewFunction(name, cur.fields.funVars.elements, |cur.fields.funVars.elements|, op);
      assert call == Function(name, cur.fields.funVars.elements, op);
      ghost var nodes0 := h.nodes;
      var t := h.New(call);
      KeepsAppend(nodes0, call);
      r := Ok(t);
    }

    /** The end of `addState`: the closed scope's entity `t` joins the
        enclosing scope, is placed under the scope's operator `pOp`, and the
        enclosing scope's pending literal is forgotten. */
    method PlaceScope(parent: ParsingState, h: Heap, pOp: char, t: Ref) returns (o: Outcome)
      requires Valid() && Scope(parent, h)
      requires t < |h.nodes| && BucketsBelow(parent.fields.inOperationOrder, t)
      modifies parent, h
      ensures h.Valid() && Keeps(old(h.nodes), h.nodes)
      ensures !old(h.nodes)[t].Formula? ==> h.nodes[t] == old(h.nodes)[t]
      ensures o.Fail? ==> Internal(o.error)
      ensures o.Pass? ==> (Scope(parent, h) && parent.fields.lastAddedEntity == Some(t) &&
        parent.fields.inOrder.elements == old(parent.fields.inOrder.elements) + [t] &&
        parent.fields.lastOperation == pOp && PlacedOnly(old(parent.fields), parent.fields, true))
    {
      var placed := ListAdd(parent.fields.inOrder, t).value;
      parent.fields := parent.fields.(inOrder := placed);
      ghost var added := parent.fields;
      assert PlacedOnly(old(parent.fields), added, false);
      o := ResolveAddition(parent, h, pOp, t);
      if o.Fail? {
        return;
      }
      ghost var resolved := parent.fields;
      ResolvedPlaced(added, resolved, pOp, t);
      PlacedTrans(old(parent.fields), added, resolved, false);
      parent.Reset();
      PlacedTrans(old(parent.fields), resolved, parent.fields, true);
    }

    // ---------------------------------------------------------------------
    // The scan
    // ---------------------------------------------------------------------

    /** The top of the scan loop: when no name is being read and no operator
        was noted for one, the char is noted as the operator before a
        possible function call, or the between-variables operator when it is
        no operator. */
    method NoteFunctionOperator(st: ParsingState, c: char) returns (o: Outcome)
      requires Valid() && st.Valid()
      modifies st
      ensures st.Valid()
      ensures o.Fail? ==> o.error == IndexOutOfBounds && st.fields == old(st.fields)
      ensures var f := old(st.fields);
        if f.funcString == "" && f.preFuncOp.None? then
          (o.Pass? <==> c as int < limit) &&
          (o.Pass? ==> st.fields == f.(preFuncOp := Some(if opPresent[c as int] then c else settings.betweenVariables)))
        else o.Pass? && st.fields == f
    {
      if st.fields.funcString == "" && st.fields.preFuncOp.None? {
        if c as int >= limit {
          return Fail(IndexOutOfBounds);
        }
        st.fields := st.fields.(preFuncOp := Some(if opPresent[c as int] then c else settings.betweenVariables));
      }
      o := Pass;
    }

    /** The name scan: while the name being read is not a registered
        function, each char extends it, and a name no registered function
        starts with is dropped; a name that starts or ends commits the
        scope's pending entities. `name` is what a following `(` looks up. */
    method ScanName(st: ParsingState, h: Heap, c: char) returns (o: Outcome, name: string)
      requires Valid() && Scope(st, h)
      modifies st
      ensures name == if old(st.fields.funcString) in functions then old(st.fields.funcString)
                      else old(st.fields.funcString) + [c]
      ensures o.Fail? ==> o.error == NullReference && st.fields == old(st.fields)
      ensures o.Pass? ==> (Scope(st, h) &&
        st.fields.funcString == (if NamePrefix(functions, name) then name else ""))
      ensures old(st.fields.funcString) in functions ==> o.Pass? && st.fields == old(st.fields)
      ensures old(st.fields.funcString) !in functions ==>
        var r := NameStep(old(st.fields), NamePrefix(functions, name), name);
        (o.Pass? <==> r.Ok?) && (o.Pass? ==> st.fields == r.value)
    {
      name := st.fields.funcString;
      if name in functions {
        return Pass, name;
      }
      name := name + [c];
      o := ExtendName(st, h, name);
    }

    /** The name scan when the name read so far is not a function: `name`
        is that name extended by the char. */
    method ExtendName(st: ParsingState, h: Heap, name: string) returns (o: Outcome)
      requires Valid() && Scope(st, h) && 0 < |name|
      modifies st
      ensures var r := NameStep(old(st.fields), NamePrefix(functions, name), name);
        (o.Pass? <==> r.Ok?) &&
        (o.Fail? ==> o.error == NullReference && st.fields == old(st.fields)) &&
        (o.Pass? ==> Scope(st, h) && st.fields == r.value)
    {
      ghost var r := NameStep(st.fields, NamePrefix(functions, name), name);
      if NameKnown(name) {
        if st.fields.funcString == "" {
          o := st.Dump();
        } else {
          o := Pass;
        }
        if o.Pass? {
          st.fields := st.fields.(funcString := name);
        }
      } else {
        o := st.Dump();
        if o.Pass? {
          st.ResetFunc();
        }
      }
      if o.Pass? {
        RefsNameStep(old(st.fields), NamePrefix(functions, name), name, |h.nodes|);
      }
    }

    /** `funcNameSearcher.exists(p)`: whether some registered function is
        called `p` or starts with it. */
    function NameKnown(p: string): (r: bool)
      reads this, opImpl, opPrio, opPresent, commas, delims, funcNameSearcher
      requires Valid() && 0 < |p|
      ensures r <==> NamePrefix(functions, p)
    {
      PrefixIndexAnswers(p);
      assert p in functions ==> IsPrefixOf(p, p);
      funcNameSearcher.Exists(p)
    }

    /** `(`: the scope is suspended and a new one opened for the
        parenthesis. Without a function named before it, the pending entities
        are committed, the name is dropped, and the parenthesis is preceded by
        the operator written before it, or else by the between-variables
        operator after an entity and the default operator at the start. After
        a function name, the pending entities belong to the name and are
        rolled back, and the new scope reads the function's arguments,
        preceded by the operator noted before the name. */
    method OpenScope(st: ParsingState, h: Heap, name: string, last: Option<char>) returns (o: Outcome, inner: ParsingState?)
      requires Valid() && Scope(st, h)
      modifies st
      ensures o.Fail? ==> Internal(o.error)
      ensures o.Pass? ==> (inner != null && fresh(inner) && Scope(st, h) && Scope(inner, h))
      ensures var f := old(st.fields);
        var opBefore := if last.Some? && last.value != '(' then settings.betweenVariables else settings.defaultOperator;
        if name !in functions then
          (o.Pass? <==> Dumped(f).Ok? && (last.Some? ==> last.value as int < limit)) &&
          (o.Pass? ==> (st.fields == AfterResetFunc(Dumped(f).value) &&
             inner.fields == Initial(settings.defaultOperator, settings.betweenVariables, opIndexMapSize as nat).(
               parenthesesOperation := if last.Some? && opPresent[last.value as int] then last.value else opBefore)))
        else
          (o.Pass? <==> RolledBackState(f).Ok? && f.preFuncOp.Some?) &&
          (o.Pass? ==> (st.fields == RolledBackState(f).value.(func := true) &&
             inner.fields == Initial(settings.defaultOperator, settings.betweenVariables, opIndexMapSize as nat).(
               isFunc := true, parenthesesOperation := f.preFuncOp.value)))
    {
      var operator := if last.Some? && last.value != '(' then settings.betweenVariables else settings.defaultOperator;
      var isFunc := name in functions;
      if !isFunc {
        o, operator := OpenPlain(st, h, last, operator);
      } else {
        o, operator := OpenCall(st, h);
      }
      if o.Fail? {
        return o, null;
      }
      inner := new ParsingState(settings.defaultOperator, settings.betweenVariables, opIndexMapSize as nat);
      inner.fields := inner.fields.(isFunc := isFunc, parenthesesOperation := operator);
      RefsGrow(inner.fields, 0, |h.nodes|);
    }

    /** `(` without a function name: the pending entities are committed, the
        name is dropped, and an operator written before the parenthesis
        replaces `operator`. */
    method OpenPlain(st: ParsingState, h: Heap, last: Option<char>, operator: char) returns (o: Outcome, op: char)
      requires Valid() && Scope(st, h)
      modifies st
      ensures o.Fail? ==> Internal(o.error)
      ensures o.Pass? <==> Dumped(old(st.fields)).Ok? && (last.Some? ==> last.value as int < limit)
      ensures o.Pass? ==> (Scope(st, h) && st.fields == AfterResetFunc(Dumped(old(st.fields)).value) &&
        op == if last.Some? && opPresent[last.value as int] then last.value else operator)
    {
      op := operator;
      o := DumpPlain(st, h);
      if o.Fail? {
        return;
      }
      if last.Some? {
        if last.value as int >= limit {
          return Fail(IndexOutOfBounds), op;
        }
        if opPresent[last.value as int] {
          op := last.value;
        }
      }
    }

    /** The scope of a plain `(`: the pending entities are committed and
        the function name is dropped. */
    method DumpPlain(st: ParsingState, h: Heap) returns (o: Outcome)
      requires Valid() && Scope(st, h)
      modifies st
      ensures o.Fail? ==> Internal(o.error)
      ensures o.Pass? <==> Dumped(old(st.fields)).Ok?
      ensures o.Pass? ==> Scope(st, h) && st.fields == AfterResetFunc(Dumped(old(st.fields)).value)
    {
      st.fields := st.fields.(func := false);
      o := st.Dump();
      if o.Fail? {
        return;
      }
      RefsDumped(old(st.fields).(func := false), |h.nodes|);
      st.ResetFunc();
    }

    /** `(` after a function name: the pending entities belong to the name
        and are rolled back; the arguments are preceded by the operator
        noted before the name (Java unboxes it, and throws on none). */
    method OpenCall(st: ParsingState, h: Heap) returns (o: Outcome, op: char)
      requires Valid() && Scope(st, h)
      modifies st
      ensures o.Fail? ==> Internal(o.error)
      ensures o.Pass? <==> RolledBackState(old(st.fields)).Ok? && old(st.fields.preFuncOp).Some?
      ensures o.Pass? ==> (Scope(st, h) && st.fields == RolledBackState(old(st.fields)).value.(func := true) &&
        op == old(st.fields.preFuncOp).value)
    {
      op := settings.defaultOperator;
      st.fields := st.fields.(func := true);
      o := st.ClearTemp();
      if o.Fail? {
        return;
      }
      RefsRolledBack(old(st.fields).(func := true), |h.nodes|);
      if st.fields.preFuncOp.None? {
        return Fail(NullReference), op;
      }
      op := st.fields.preFuncOp.value;
    }

    /** `)`: an argument read so far is completed when the scope reads a
        function's arguments, then the scope is closed into the enclosing
        one (see `AddState`). */
    method CloseScope(cur: ParsingState, parent: ParsingState, h: Heap) returns (o: Outcome)
      requires Valid() && cur != parent && Scope(cur, h) && Scope(parent, h)
      modifies cur, parent, h
      ensures h.Valid() && (o.Pass? ==> Keeps(old(h.nodes), h.nodes))
      ensures o.Fail? ==> Internal(o.error)
      ensures o.Pass? ==> (Scope(parent, h) && parent.fields.lastAddedEntity.Some? &&
        var t := parent.fields.lastAddedEntity.value;
        |old(h.nodes)| <= t < |h.nodes| &&
        parent.fields.inOrder.elements == old(parent.fields.inOrder.elements) + [t] &&
        parent.fields.lastOperation == old(cur.fields.parenthesesOperation) &&
        PlacedOnly(old(parent.fields), parent.fields, true) &&
        (old(parent.fields.func) ==>
           h.nodes[t].Function? && h.nodes[t].id == old(parent.fields.funcString) &&
           |h.nodes[t].params| == |old(cur.fields.funVars.elements)| + (if old(cur.fields.isFunc) then 1 else 0)) &&
        (!old(parent.fields.func) ==> h.nodes[t].Formula?))
    {
      ghost var nodes0 := h.nodes;
      KeepsRefl(h.nodes);
      if cur.fields.isFunc {
        o := AddFuncVariable(cur, h);
        if o.Fail? {
          return;
        }
        RefsGrow(parent.fields, |nodes0|, |h.nodes|);
      }
      ghost var nodes1 := h.nodes;
      o := AddState(cur, parent, h);
      if o.Pass? {
        KeepsTrans(nodes0, nodes1, h.nodes);
      }
    }

    /** `processChar`: any char other than a parenthesis. Right after an
        entity, with no operator pending, a char with no role implies the
        between-variables operator, a delimiter inside a function's
        arguments completes the argument, an operator becomes the pending
        operator (a minus also negating what follows), and a comma or a
        stray delimiter is refused. Everything else goes to `ReadChar`. */
    method ProcessChar(st: ParsingState, h: Heap, c: char) returns (o: Outcome)
      requires Valid() && Scope(st, h)
      modifies st, h
      ensures h.Valid() && (o.Pass? ==> Keeps(old(h.nodes), h.nodes))
      ensures o.Pass? ==> Scope(st, h)
      ensures c as int >= limit ==> o == Fail(IndexOutOfBounds)
      ensures o.Fail? ==> Internal(o.error) || o.error == InvalidOperationSymbol || o.error == DoubleComma
      ensures var f := old(st.fields);
        var after := f.currentOperation.None? && f.inOrder.elements != [];
        o == Fail(InvalidOperationSymbol) <==>
          c as int < limit && after && !opPresent[c as int] &&
          (commas[c as int] || (delims[c as int] && !f.isFunc))
      ensures var f := old(st.fields);
        var after := f.currentOperation.None? && f.inOrder.elements != [];
        c as int < limit && after && opPresent[c as int] ==>
          o.Pass? && h.nodes == old(h.nodes) && st.fields == f.(currentOperation := Some(c), isNegative := c == '-')
      ensures var f := old(st.fields);
        var after := f.currentOperation.None? && f.inOrder.elements != [];
        c as int < limit && !(after && (commas[c as int] || delims[c as int] || opPresent[c as int])) ==>
          var g := if after then f.(currentOperation := Some(settings.betweenVariables)) else f;
          ReadOutcome(o, g, st.fields, old(h.nodes), h.nodes, c)
    {
      if c as int >= limit {
        KeepsRefl(h.nodes);
        return Fail(IndexOutOfBounds);
      }
      if st.fields.currentOperation.None? && st.fields.inOrder.elements != [] {
        var done;
        o, done := AfterEntity(st, h, c);
        if done {
          return;
        }
      }
      ghost var f := st.fields;
      o := ReadChar(st, h, c);
      ReadErrors(o, f, st.fields, old(h.nodes), h.nodes, c);
    }

    /** The first block of `processChar`, right after an entity with no
        operator pending; `done` when the char was consumed there. */
    method AfterEntity(st: ParsingState, h: Heap, c: char) returns (o: Outcome, done: bool)
      requires Valid() && Scope(st, h) && c as int < limit
      modifies st, h
      ensures h.Valid() && (o.Pass? ==> Keeps(old(h.nodes), h.nodes))
      ensures var k := c as int;
        (done <==> commas[k] || delims[k] || opPresent[k]) &&
        (!done ==> Scope(st, h) && h.nodes == old(h.nodes) &&
                   st.fields == old(st.fields).(currentOperation := Some(settings.betweenVariables))) &&
        (done && opPresent[k] ==> o.Pass? && h.nodes == old(h.nodes) &&
                                  st.fields == old(st.fields).(currentOperation := Some(c), isNegative := c == '-')) &&
        (done ==> (o == Fail(InvalidOperationSymbol) <==>
                     !opPresent[k] && (commas[k] || (delims[k] && !old(st.fields.isFunc))))) &&
        (done && o.Fail? ==> Internal(o.error) || o.error == InvalidOperationSymbol) &&
        (done && o.Pass? ==> Scope(st, h))
    {
      var k := c as int;
      KeepsRefl(h.nodes);
      done := true;
      if !commas[k] && !delims[k] && !opPresent[k] {
        st.fields := st.fields.(currentOperation := Some(settings.betweenVariables));
        done := false;
        o := Pass;
      } else if delims[k] && st.fields.isFunc {
        RolesExclusive(c);
        o := AddFuncVariable(st, h);
      } else if !opPresent[k] {
        o := Fail(InvalidOperationSymbol);
      } else {
        st.fields := st.fields.(currentOperation := Some(c), isNegative := c == '-');
        o := Pass;
      }
    }

    /** The rest of `processChar`, on a char that reads into the pending
        literal or ends it (see `ReadOutcome`). */
    method ReadChar(st: ParsingState, h: Heap, c: char) returns (o: Outcome)
      requires Valid() && Scope(st, h) && c as int < limit
      modifies st, h
      ensures h.Valid() && (o.Pass? ==> Keeps(old(h.nodes), h.nodes))
      ensures o.Pass? ==> Scope(st, h)
      ensures ReadOutcome(o, old(st.fields), st.fields, old(h.nodes), h.nodes, c)
    {
      if st.fields.currentValue.None? {
        if c == '-' {
          st.fields := st.fields.(isNegative := !st.fields.isNegative);
          KeepsRefl(h.nodes);
          return Pass;
        }
        st.fields := LiteralOpened(st.fields, c, settings.defaultValue);
      }
      o := ReadRest(st, h, c);
    }

    /** What reading `c` does to a scope in state `f` (ending in `g`) and to
        the heap (from `before` to `after`): a minus with no literal pending
        flips the sign; any other char first opens a literal (see
        `LiteralOpened`). */
    ghost predicate ReadOutcome(o: Outcome, f: Fields, g: Fields, before: seq<Entity>, after: seq<Entity>, c: char)
      reads this, opPresent, commas, delims
    {
      if f.currentValue.None? && c == '-' then
        o.Pass? && after == before && g == f.(isNegative := !f.isNegative)
      else
        RestOutcome(o, LiteralOpened(f, c, settings.defaultValue), g, before, after, c)
    }

    lemma ReadErrors(o: Outcome, f: Fields, g: Fields, before: seq<Entity>, after: seq<Entity>, c: char)
      requires ReadOutcome(o, f, g, before, after, c)
      ensures o.Fail? ==> o.error == DoubleComma || Internal(o.error)
    {
    }

    /** What the rest of `processChar` does with a literal pending: a comma
        starts the fraction, and a second one is refused; a delimiter inside
        a function's arguments completes the argument; a digit is read into
        the literal; an operator ends the literal; any other char is a
        variable. */
    ghost predicate RestOutcome(o: Outcome, f: Fields, g: Fields, before: seq<Entity>, after: seq<Entity>, c: char)
      reads this, opPresent, commas, delims
    {
      var k := c as int;
      k < commas.Length && k < delims.Length && k < opPresent.Length && f.currentValue.Some? &&
      (o.Fail? ==> o.error == DoubleComma || Internal(o.error)) &&
      if commas[k] then
        (o.Fail? <==> f.hasDecimalPoint) && (o.Fail? ==> o.error == DoubleComma) &&
        (o.Pass? ==> g == f.(hasDecimalPoint := true) && after == before)
      else if delims[k] && f.isFunc then
        o.Fail? || ArgumentAdded(f, g, before, after)
      else if IsDigit(c) then
        o.Pass? && after == before && g == DigitRead(f, c)
      else if opPresent[k] then
        o.Fail? || OperatorEnded(f, g, before, after, c)
      else
        o.Fail? || VariableRead(f, g, before, after, c)
    }

    /** `addFuncVariable` done: the argument read so far became a formula,
        preceded by the operator before the function's parenthesis, and the
        next of the function's arguments; the scope starts afresh. */
    ghost predicate ArgumentAdded(f: Fields, g: Fields, before: seq<Entity>, after: seq<Entity>)
      reads this
    {
      |before| < |after| &&
      var arg := |after| - 1;
      after[arg].Formula? && after[arg].root.None? && after[arg].precedentSymbol == f.parenthesesOperation &&
      after[arg].inOrder == f.inOrder.elements + (if f.currentValue.Some? then [|before|] else []) &&
      g.funVars.elements == f.funVars.elements + [arg] &&
      g.inOrder.elements == [] && g.inOperationOrder.size == 0 &&
      g.currentValue.None? && g.lastAddedEntity.None? && g.lastOperation == settings.defaultOperator &&
      g.funcString == f.funcString && g.isFunc == f.isFunc && g.parenthesesOperation == f.parenthesesOperation
    }

    /** An operator after the literal `f` holds: the literal becomes an
        entity (except in a scope that named a function, see `func`) and the
        operator is pending. */
    ghost predicate OperatorEnded(f: Fields, g: Fields, before: seq<Entity>, after: seq<Entity>, c: char)
      reads this
    {
      g.currentOperation == Some(c) && g.isNegative == (c == '-') &&
      if f.func then
        after == before && g == f.(currentOperation := Some(c), isNegative := c == '-')
      else
        var op := if f.currentOperation.Some? then f.currentOperation.value else settings.defaultOperator;
        var x := |before|;
        f.currentValue.Some? && x < |after| &&
        after[x] == StaticVariable(FormatStatic(f.isNegative, f.currentValue.value),
                                   if op == '-' then settings.defaultOperator else op) &&
        g.inOrder.elements == f.inOrder.elements + [x] && g.lastAddedEntity == Some(x) &&
        g.currentValue.None? && !g.hasDecimalPoint
    }

    /** A variable letter after the literal `f` holds: a non-zero literal
        becomes an entity first, and then the letter, preceded by the
        between-variables operator after a literal. */
    ghost predicate VariableRead(f: Fields, g: Fields, before: seq<Entity>, after: seq<Entity>, c: char)
      reads this
    {
      var literal := f.currentValue != Some(0.0);
      var op := if literal then settings.betweenVariables
                else if f.currentOperation.Some? then f.currentOperation.value else settings.defaultOperator;
      g.lastAddedEntity.Some? &&
      var t := g.lastAddedEntity.value;
      |before| <= t < |after| &&
      after[t] == NewReplaceable(c, if op != '-' then op else settings.defaultOperator, f.isNegative) &&
      g.inOrder.elements == f.inOrder.elements + (if literal then [|before|] else []) + [t] &&
      (literal ==> f.currentValue.Some? && after[|before|].StaticVariable? &&
                   after[|before|].value == FormatStatic(f.isNegative, f.currentValue.value)) &&
      g.currentValue.None? && g.currentOperation.None?
    }

    /** The rest of `processChar` with a literal pending. */
    method ReadRest(st: ParsingState, h: Heap, c: char) returns (o: Outcome)
      requires Valid() && Scope(st, h) && c as int < limit && st.fields.currentValue.Some?
      modifies st, h
      ensures h.Valid() && (o.Pass? ==> Keeps(old(h.nodes), h.nodes))
      ensures o.Pass? ==> Scope(st, h)
      ensures RestOutcome(o, old(st.fields), st.fields, old(h.nodes), h.nodes, c)
    {
      var k := c as int;
      if commas[k] {
        KeepsRefl(h.nodes);
        if st.fields.hasDecimalPoint {
          return Fail(DoubleComma);
        }
        st.fields := st.fields.(hasDecimalPoint := true);
        return Pass;
      }
      if delims[k] && st.fields.isFunc {
        o := AddFuncVariable(st, h);
        return;
      }
      var val := FromChar(c);
      if val == -1 {
        if opPresent[k] {
          o := OperatorAfter(st, h, c);
        } else {
          o := VariableAfter(st, h, c);
        }
        return;
      }
      KeepsRefl(h.nodes);
      st.fields := DigitRead(st.fields, c);
      o := Pass;
    }

    /** An operator ends the pending literal. */
    method OperatorAfter(st: ParsingState, h: Heap, c: char) returns (o: Outcome)
      requires Valid() && Scope(st, h) && st.fields.currentValue.Some?
      modifies st, h
      ensures h.Valid() && (o.Pass? ==> Keeps(old(h.nodes), h.nodes))
      ensures o.Fail? ==> Internal(o.error)
      ensures o.Pass? ==> Scope(st, h) && OperatorEnded(old(st.fields), st.fields, old(h.nodes), h.nodes, c)
    {
      KeepsRefl(h.nodes);
      if !st.fields.func {
        o := AddStaticVariable(st, h, true);
        if o.Fail? {
          return;
        }
      }
      st.fields := st.fields.(currentOperation := Some(c), isNegative := c == '-');
      o := Pass;
    }

    /** A variable letter ends the pending literal. */
    method VariableAfter(st: ParsingState, h: Heap, c: char) returns (o: Outcome)
      requires Valid() && Scope(st, h) && st.fields.currentValue.Some?
      modifies st, h
      ensures h.Valid() && (o.Pass? ==> Keeps(old(h.nodes), h.nodes))
      ensures o.Fail? ==> Internal(o.error)
      ensures o.Pass? ==> Scope(st, h) && VariableRead(old(st.fields), st.fields, old(h.nodes), h.nodes, c)
    {
      ghost var nodes0 := h.nodes;
      KeepsRefl(h.nodes);
      if st.fields.currentValue.value != 0.0 {
        o := AddStaticVariable(st, h, false);
        if o.Fail? {
          return;
        }
      }
      ghost var nodes1 := h.nodes;
      ghost var mid := st.fields;
      o := AddVariable(st, h, c);
      if o.Fail? {
        return;
      }
      KeepsTrans(nodes0, nodes1, h.nodes);
      if old(st.fields.currentValue).value != 0.0 {
        assert KeptAt(nodes1[|nodes0|], h.nodes[|nodes0|]);
      }
    }

    /** The current scope and the suspended ones, innermost last: distinct
        states over the heap. */
    ghost predicate Scopes(current: ParsingState, stack: seq<ParsingState>, h: Heap)
      reads current, stack, h
    {
      Scope(current, h) && current !in stack &&
      (forall j :: 0 <= j < |stack| ==> Scope(stack[j], h)) &&
      (forall a, b :: 0 <= a < b < |stack| ==> stack[a] != stack[b])
    }

    /** The current scope is closed into the innermost suspended one, which
        is resumed; `complete` first completes a pending function argument
        (a `)` does, the end of the input does not). */
    method PopScope(current: ParsingState, stack: seq<ParsingState>, h: Heap, complete: bool)
      returns (o: Outcome, next: ParsingState, rest: seq<ParsingState>)
      requires Valid() && Scopes(current, stack, h) && stack != []
      modifies h, current, stack[|stack| - 1]
      ensures h.Valid() && (o.Pass? ==> Keeps(old(h.nodes), h.nodes))
      ensures o.Fail? ==> Internal(o.error)
      ensures next == stack[|stack| - 1] && rest == stack[..|stack| - 1]
      ensures o.Pass? ==> Scopes(next, rest, h)
    {
      next, rest := stack[|stack| - 1], stack[..|stack| - 1];
      if complete {
        o := CloseScope(current, next, h);
      } else {
        o := AddState(current, next, h);
      }
      if o.Pass? {
        forall j | 0 <= j < |rest|
          ensures Scope(rest[j], h)
        {
          RefsGrow(rest[j].fields, |old(h.nodes)|, |h.nodes|);
        }
      }
    }

    /** One pass of `parseFormula`'s loop: a skipped space changes nothing;
        otherwise the name scan sees the char, and `(` opens a scope, `)`
        closes one (and is refused with none open), and anything else goes
        to `processChar`. `last` is the previous char not skipped. */
    method ScanChar(c: char, current: ParsingState, stack: seq<ParsingState>, last: Option<char>, h: Heap)
      returns (o: Outcome, next: ParsingState, stack': seq<ParsingState>, last': Option<char>)
      requires Valid() && Scopes(current, stack, h)
      modifies h, current, stack
      ensures h.Valid() && (o.Pass? ==> Keeps(old(h.nodes), h.nodes))
      ensures o.Fail? ==> ParseError(o.error)
      ensures o.Pass? ==> Scopes(next, stack', h)
      ensures settings.skipEmptySpace && c == ' ' ==>
        o.Pass? && next == current && stack' == stack && last' == last &&
        h.nodes == old(h.nodes) && current.fields == old(current.fields)
      ensures !(settings.skipEmptySpace && c == ' ') && o.Pass? ==>
        last' == Some(c) &&
        (c == '(' ==> fresh(next) && stack' == stack + [current]) &&
        (c == ')' ==> stack != [] && next == stack[|stack| - 1] && stack' == stack[..|stack| - 1]) &&
        (c != '(' && c != ')' ==> next == current && stack' == stack)
      ensures c == ')' && stack == [] ==> o.Fail?
      ensures o == Fail(UnbalancedParenthesis) ==> c == ')' && stack == []
    {
      next, stack', last' := current, stack, last;
      KeepsRefl(h.nodes);
      if settings.skipEmptySpace && c == ' ' {
        return Pass, next, stack', last';
      }
      var name;
      o, name := ScanPrelude(current, stack, h, c);
      if o.Fail? {
        return;
      }
      last' := Some(c);
      if c == '(' {
        o, next, stack' := ScanOpen(current, stack, h, name, last);
      } else if c == ')' {
        if stack == [] {
          return Fail(UnbalancedParenthesis), next, stack', last';
        }
        o, next, stack' := PopScope(current, stack, h, true);
      } else {
        o := ScanOther(current, stack, h, c);
      }
    }

    /** The part of the pass every char not skipped goes through: the
        operator before a function name is noted and the name scan is
        extended. */
    method ScanPrelude(current: ParsingState, stack: seq<ParsingState>, h: Heap, c: char)
      returns (o: Outcome, name: string)
      requires Valid() && Scopes(current, stack, h)
      modifies current
      ensures o.Fail? ==> Internal(o.error)
      ensures o.Pass? ==> Scopes(current, stack, h)
    {
      name := "";
      o := NoteFunctionOperator(current, c);
      if o.Pass? {
        o, name := ScanName(current, h, c);
      }
    }

    /** A `(`: the current scope is suspended and a fresh one opened. */
    method ScanOpen(current: ParsingState, stack: seq<ParsingState>, h: Heap, name: string, last: Option<char>)
      returns (o: Outcome, next: ParsingState, stack': seq<ParsingState>)
      requires Valid() && Scopes(current, stack, h)
      modifies current
      ensures o.Fail? ==> Internal(o.error)
      ensures o.Pass? ==> fresh(next) && stack' == stack + [current] && Scopes(next, stack', h)
    {
      next, stack' := current, stack;
      var inner;
      o, inner := OpenScope(current, h, name, last);
      if o.Pass? {
        next, stack' := inner, stack + [current];
        PushScopes(current, stack, next, h);
      }
    }

    /** Suspending `current` under a new scope `next` keeps the scopes
        distinct. */
    lemma PushScopes(current: ParsingState, stack: seq<ParsingState>, next: ParsingState, h: Heap)
      requires Scope(current, h) && Scope(next, h) && current !in stack && next !in stack && next != current
      requires forall j :: 0 <= j < |stack| ==> Scope(stack[j], h)
      requires forall a, b :: 0 <= a < b < |stack| ==> stack[a] != stack[b]
      ensures Scopes(next, stack + [current], h)
    {
    }

    /** Any other char is read into the current scope. */
    method ScanOther(current: ParsingState, stack: seq<ParsingState>, h: Heap, c: char) returns (o: Outcome)
      requires Valid() && Scopes(current, stack, h)
      modifies current, h
      ensures h.Valid() && (o.Pass? ==> Keeps(old(h.nodes), h.nodes))
      ensures o.Fail? ==> Internal(o.error) || o.error == InvalidOperationSymbol || o.error == DoubleComma
      ensures o.Pass? ==> Scopes(current, stack, h)
    {
      o := ProcessChar(current, h, c);
      if o.Pass? {
        forall j | 0 <= j < |stack|
          ensures Scope(stack[j], h)
        {
          RefsGrow(stack[j].fields, |old(h.nodes)|, |h.nodes|);
        }
      }
    }

    /** `parseFormula(formula)` with no replacement parse logic: a
        root scope reads the string char by char, parentheses open and close
        nested scopes, the scopes still open at the end are closed (without
        completing a pending function argument), and the root scope becomes
        the root formula. It fails exactly when some prefix closes a
        parenthesis it did not open, unless it failed earlier for another
        reason; an empty (or, when spaces are skipped, blank) string gives
        the formula with no entities. */
    method ParseFormula(h: Heap, formula: string) returns (r: Result<Ref>)
      requires Valid() && h.Valid()
      modifies h
      ensures h.Valid() && (r.Ok? ==> Keeps(old(h.nodes), h.nodes))
      ensures r.Ok? ==> (r.value < |h.nodes| && h.nodes[r.value].Formula? && h.nodes[r.value].root.None? &&
                         h.nodes[r.value].precedentSymbol == settings.defaultOperator)
      ensures r.Err? ==> ParseError(r.error)
      ensures Unbalanced(formula) ==> r.Err?
      ensures r == Err(UnbalancedParenthesis) ==> Unbalanced(formula)
      ensures formula == "" || (settings.skipEmptySpace && AllSpaces(formula)) ==>
        r.Ok? && h.nodes[r.value].inOrder == []
    {
      var root := new ParsingState(settings.defaultOperator, settings.betweenVariables, opIndexMapSize as nat);
      RefsGrow(root.fields, 0, |h.nodes|);
      var o, current, stack := ScanAll(root, h, formula);
      if o.Fail? {
        return Err(o.error);
      }
      ghost var nodes0 := h.nodes;
      r := Conclude(root, current, stack, h);
      if r.Ok? {
        KeepsTrans(old(h.nodes), nodes0, h.nodes);
      }
    }

    /** The end of `parseFormula`: the scopes still open are closed and the
        root scope becomes the root formula, of the default operator. */
    method Conclude(root: ParsingState, current: ParsingState, stack: seq<ParsingState>, h: Heap) returns (r: Result<Ref>)
      requires Valid() && Scopes(current, stack, h) && root == (if stack == [] then current else stack[0])
      modifies h, current, stack
      ensures h.Valid() && (r.Ok? ==> Keeps(old(h.nodes), h.nodes))
      ensures r.Err? ==> Internal(r.error)
      ensures r.Ok? ==> (r.value < |h.nodes| && h.nodes[r.value].Formula? && h.nodes[r.value].root.None? &&
                         h.nodes[r.value].precedentSymbol == settings.defaultOperator)
      ensures stack == [] && old(root.fields.currentValue).None? && old(root.fields.inOrder.elements) == [] ==>
        r.Ok? && h.nodes[r.value].inOrder == []
    {
      var o := CloseAll(root, current, stack, h);
      if o.Fail? {
        return Err(o.error);
      }
      ghost var nodes1 := h.nodes;
      r := FinishFormula(root, h, None);
      if r.Ok? {
        KeepsTrans(old(h.nodes), nodes1, h.nodes);
      }
    }

    /** The loop of `parseFormula` over the chars of `formula`, starting in
        the root scope; it ends with the scopes still open. */
    method ScanAll(root: ParsingState, h: Heap, formula: string)
      returns (o: Outcome, current: ParsingState, stack: seq<ParsingState>)
      requires Valid() && Scope(root, h)
      modifies h, root
      ensures h.Valid() && (o.Pass? ==> Keeps(old(h.nodes), h.nodes))
      ensures o.Fail? ==> ParseError(o.error)
      ensures o == Fail(UnbalancedParenthesis) ==> Unbalanced(formula)
      ensures Unbalanced(formula) ==> o.Fail?
      ensures o.Pass? ==> Scopes(current, stack, h) && root == (if stack == [] then current else stack[0])
      ensures o.Pass? ==> (current == root || fresh(current)) &&
                          forall j :: 0 <= j < |stack| ==> stack[j] == root || fresh(stack[j])
      ensures formula == "" || (settings.skipEmptySpace && AllSpaces(formula)) ==>
        o.Pass? && stack == [] && root.fields == old(root.fields)
    {
      current, stack := root, [];
      var last := None;
      KeepsRefl(h.nodes);
      var i := 0;
      while i < |formula|
        invariant 0 <= i <= |formula|
        invariant h.Valid() && Keeps(old(h.nodes), h.nodes)
        invariant Scopes(current, stack, h) && root == (if stack == [] then current else stack[0])
        invariant (current == root || fresh(current)) &&
                  forall j :: 0 <= j < |stack| ==> stack[j] == root || fresh(stack[j])
        invariant |stack| == Depth(formula[..i]) && !Unbalanced(formula[..i])
        invariant i == 0 || (settings.skipEmptySpace && AllSpaces(formula[..i])) ==>
          stack == [] && current == root && root.fields == old(root.fields)
      {
        PrefixStep(formula, i);
        o, current, stack, last := ScanNext(root, current, stack, last, h, formula, i);
        if o.Fail? {
          return;
        }
        i := i + 1;
      }
      assert formula[..i] == formula;
      o := Pass;
    }

    /** One turn of the loop of `ScanAll`, at the char `formula[i]`: the
        stack follows the parenthesis depth of the prefix read. */
    method ScanNext(root: ParsingState, current: ParsingState, stack: seq<ParsingState>, last: Option<char>, h: Heap,
                    formula: string, i: nat)
      returns (o: Outcome, next: ParsingState, stack': seq<ParsingState>, last': Option<char>)
      requires Valid() && Scopes(current, stack, h) && root == (if stack == [] then current else stack[0])
      requires i < |formula| && |stack| == Depth(formula[..i]) && !Unbalanced(formula[..i])
      modifies h, current, stack
      ensures h.Valid() && (o.Pass? ==> Keeps(old(h.nodes), h.nodes))
      ensures o.Fail? ==> ParseError(o.error)
      ensures o == Fail(UnbalancedParenthesis) ==> Unbalanced(formula)
      ensures o.Pass? ==> Scopes(next, stack', h) && root == (if stack' == [] then next else stack'[0])
      ensures o.Pass? ==> |stack'| == Depth(formula[..i + 1]) && !Unbalanced(formula[..i + 1])
      ensures o.Pass? ==> (next == current || next in stack || fresh(next)) &&
                          forall j :: 0 <= j < |stack'| ==> stack'[j] == current || stack'[j] in stack
      ensures settings.skipEmptySpace && AllSpaces(formula[..i]) && formula[i] == ' ' ==>
        o.Pass? && next == current && stack' == stack && current.fields == old(current.fields)
    {
      o, next, stack', last' := ScanChar(formula[i], current, stack, last, h);
      DepthStep(formula, i);
      PrefixStep(formula, i);
      if o == Fail(UnbalancedParenthesis) {
        PrefixGrows(formula, i + 1);
      }
    }

    /** The loop after the last char: every scope still open is closed into
        its parent, without completing a pending function argument. */
    method CloseAll(root: ParsingState, current: ParsingState, stack: seq<ParsingState>, h: Heap) returns (o: Outcome)
      requires Valid() && Scopes(current, stack, h) && root == (if stack == [] then current else stack[0])
      modifies h, current, stack
      ensures h.Valid() && (o.Pass? ==> Keeps(old(h.nodes), h.nodes))
      ensures o.Fail? ==> Internal(o.error)
      ensures o.Pass? ==> Scope(root, h)
      ensures stack == [] ==> o.Pass? && h.nodes == old(h.nodes) && root.fields == old(root.fields)
    {
      var cur, rest := current, stack;
      KeepsRefl(h.nodes);
      o := Pass;
      while rest != []
        invariant h.Valid() && Keeps(old(h.nodes), h.nodes)
        invariant Closing(root, cur, rest, current, stack, h)
        invariant o.Pass? && (stack == [] ==> h.nodes == old(h.nodes) && root.fields == old(root.fields))
        decreases |rest|
      {
        ghost var nodes0 := h.nodes;
        o, cur, rest := CloseOne(root, cur, rest, h, current, stack);
        if o.Fail? {
          return;
        }
        KeepsTrans(old(h.nodes), nodes0, h.nodes);
      }
    }

    /** What `CloseAll` keeps while it closes scopes: `cur` and `rest` are
        the scopes still open, `rest` a prefix of the stack it started
        with, and the root is the outermost of them. */
    ghost predicate Closing(root: ParsingState, cur: ParsingState, rest: seq<ParsingState>,
                            current: ParsingState, stack: seq<ParsingState>, h: Heap)
      reads cur, rest, h
    {
      Scopes(cur, rest, h) && root == (if rest == [] then cur else rest[0]) &&
      (cur == current || cur in stack) && |rest| <= |stack| &&
      (forall j :: 0 <= j < |rest| ==> rest[j] == stack[j])
    }

    /** One turn of `CloseAll`: the innermost open scope is closed. */
    method CloseOne(root: ParsingState, cur: ParsingState, rest: seq<ParsingState>, h: Heap,
                    ghost current: ParsingState, ghost stack: seq<ParsingState>)
      returns (o: Outcome, next: ParsingState, rest': seq<ParsingState>)
      requires Valid() && Closing(root, cur, rest, current, stack, h) && rest != []
      modifies h, cur, rest[|rest| - 1]
      ensures h.Valid() && (o.Pass? ==> Keeps(old(h.nodes), h.nodes))
      ensures o.Fail? ==> Internal(o.error)
      ensures |rest'| == |rest| - 1
      ensures o.Pass? ==> Closing(root, next, rest', current, stack, h)
    {
      o, next, rest' := PopScope(cur, rest, h, false);
    }
  }
}
