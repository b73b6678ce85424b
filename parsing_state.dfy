/** The parser's per-scope bookkeeping: the entities of the (sub-)formula
    being read, in reading order and bucketed by operator rank, the number
    literal being accumulated, the last operator and entity placed, and the
    function name being read. One state exists per open parenthesis. */
module ParsingStates {
  import opened Wrappers
  import opened Entities
  import opened TempLists
  import opened TempMaps

  /** The fields of a `ParsingState`. */
  datatype Fields = Fields(
    inOrder: ListModel<Ref>, inOperationOrder: MapModel<Ref>,
    currentValue: Option<real>, currentOperation: Option<char>, parenthesesOperation: char,
    isNegative: bool, hasDecimalPoint: bool, decimalPlace: real,
    lastOperationPriority: int, lastOperation: char, lastAddedEntity: Option<Ref>, started: bool,
    funcString: string, preFuncOp: Option<char>, funVars: ListModel<Ref>,
    /** whether an implementation was found for the name before `(` (Java
        keeps the implementation itself, but the parser only tests it for null) */
    func: bool,
    isFunc: bool)

  /** The lists and the map keep their shapes; the two lists never lose
      their (positive) capacity, since `clear` keeps it. */
  ghost predicate StateOk(f: Fields) {
    WellFormed(f.inOrder) && f.inOrder.capacity > 0 && WellFormed(f.funVars) && f.funVars.capacity > 0 &&
    MapWellFormed(f.inOperationOrder)
  }

  /** Every entity a state holds lies in a heap of `n` entities. */
  ghost predicate RefsIn(f: Fields, n: nat) {
    Below(f.inOrder.elements, n) && Below(f.funVars.elements, n) &&
    (f.lastAddedEntity.Some? ==> f.lastAddedEntity.value < n) &&
    forall i :: 0 <= i < |f.inOperationOrder.slots| && f.inOperationOrder.slots[i].Some? ==>
      Below(f.inOperationOrder.slots[i].value.elements, n)
  }

  /** A state of a fresh parser scope: the field initialisers followed by
      `finalFullReset(parser, true)`. */
  function Initial(defaultOperator: char, betweenVariables: char, mapSize: nat): (r: Fields)
    ensures StateOk(r) && RefsIn(r, 0)
    ensures r.inOrder.elements == [] && r.funVars.elements == [] && |r.inOperationOrder.slots| == mapSize
    ensures r.inOperationOrder.size == 0 && r.inOperationOrder.journal == []
    ensures r.currentValue.None? && r.currentOperation.None? && r.lastAddedEntity.None?
    ensures r.lastOperation == defaultOperator && r.parenthesesOperation == betweenVariables
    ensures !r.isFunc && !r.func && r.funcString == ""
  {
    Fields(ListModel([], 0, 16), EmptyMap(mapSize), None, None, betweenVariables,
           false, false, 0.1, 0, defaultOperator, None, false,
           "", None, ListModel([], 0, 16), false, false)
  }

  /** `reset()`: the pending literal and operator are forgotten; nothing
      else changes. */
  function AfterReset(f: Fields): (r: Fields)
    ensures r.currentValue.None? && r.currentOperation.None? && !r.isNegative && !r.hasDecimalPoint && !r.started
    ensures r.decimalPlace == 0.1
    ensures r.(currentValue := f.currentValue, currentOperation := f.currentOperation, isNegative := f.isNegative,
               hasDecimalPoint := f.hasDecimalPoint, decimalPlace := f.decimalPlace, started := f.started) == f
  {
    f.(currentValue := None, currentOperation := None, isNegative := false, hasDecimalPoint := false,
       decimalPlace := 0.1, started := false)
  }

  /** `fullReset()`: a reset that also forgets the last operator and entity. */
  function AfterFullReset(f: Fields, defaultOperator: char): (r: Fields)
    ensures r.lastOperation == defaultOperator && r.lastAddedEntity.None?
    ensures r.(lastOperation := f.lastOperation, lastAddedEntity := f.lastAddedEntity) == AfterReset(f)
  {
    AfterReset(f).(lastOperation := defaultOperator, lastAddedEntity := None)
  }

  /** `finalFullReset(newMap)`: the fields of a fresh state, except that the
      lists keep their capacities and the map is replaced only when asked. */
  function AfterFinalFullReset(f: Fields, defaultOperator: char, betweenVariables: char, newMap: bool, mapSize: nat)
    : (r: Fields)
    requires StateOk(f)
    ensures StateOk(r)
    ensures r == Initial(defaultOperator, betweenVariables, mapSize).(
      inOrder := ListClear(f.inOrder), funVars := ListClear(f.funVars),
      inOperationOrder := if newMap then EmptyMap(mapSize) else f.inOperationOrder)
  {
    AfterFullReset(f, defaultOperator).(
      inOrder := ListClear(f.inOrder), parenthesesOperation := betweenVariables, lastOperationPriority := 0,
      funcString := "", preFuncOp := None, funVars := ListClear(f.funVars), func := false, isFunc := false,
      inOperationOrder := if newMap then EmptyMap(mapSize) else f.inOperationOrder)
  }

  /** `dump()`: everything added since the last commit point is committed,
      in the list and in every journalled bucket. */
  function Dumped(f: Fields): (r: Result<Fields>)
    requires StateOk(f)
    ensures r.Ok? <==> MapSettle(f.inOperationOrder, true).Ok?
    ensures r.Err? ==> r.error == NullReference
    ensures r.Ok? ==> StateOk(r.value) && r.value.inOrder.tempSize == 0 && r.value.inOperationOrder.journal == []
    ensures r.Ok? ==> r.value == f.(inOrder := Committed(f.inOrder),
                                    inOperationOrder := MapSettle(f.inOperationOrder, true).value)
  {
    var m :- MapSettle(f.inOperationOrder, true);
    Ok(f.(inOrder := Committed(f.inOrder), inOperationOrder := m))
  }

  /** `clearTemp()`: everything added since the last commit point is rolled
      back, in the list and in every journalled bucket. */
  function RolledBackState(f: Fields): (r: Result<Fields>)
    requires StateOk(f)
    ensures r.Ok? <==> MapSettle(f.inOperationOrder, false).Ok?
    ensures r.Err? ==> r.error == NullReference
    ensures r.Ok? ==> StateOk(r.value) && r.value.inOrder.tempSize == 0 && r.value.inOperationOrder.journal == []
    ensures r.Ok? ==> r.value == f.(inOrder := RolledBack(f.inOrder),
                                    inOperationOrder := MapSettle(f.inOperationOrder, false).value)
  {
    var m :- MapSettle(f.inOperationOrder, false);
    Ok(f.(inOrder := RolledBack(f.inOrder), inOperationOrder := m))
  }

  /** `resetFunc()`: the function name being read is forgotten; the
      argument list survives inside a function's own scope. */
  function AfterResetFunc(f: Fields): (r: Fields)
    requires StateOk(f)
    ensures StateOk(r) && r.funcString == "" && r.preFuncOp.None? && !r.func
    ensures r.funVars == if f.isFunc then f.funVars else ListClear(f.funVars)
    ensures r.(funcString := f.funcString, preFuncOp := f.preFuncOp, func := f.func, funVars := f.funVars) == f
  {
    f.(funcString := "", preFuncOp := None, func := false,
       funVars := if f.isFunc then f.funVars else ListClear(f.funVars))
  }

  /** The part of `addFuncVariable` after the argument formula `arg` was
      built: it becomes the next argument and the scope starts afresh. */
  function WithArgument(f: Fields, arg: Ref, defaultOperator: char): (r: Fields)
    requires StateOk(f)
    ensures StateOk(r) && r.funVars.elements == f.funVars.elements + [arg]
    ensures r.inOrder.elements == [] && r.inOperationOrder.size == 0 && r.inOperationOrder.journal == []
    ensures r.currentValue.None? && r.lastAddedEntity.None? && r.lastOperation == defaultOperator
    ensures r.funcString == f.funcString && r.isFunc == f.isFunc && r.parenthesesOperation == f.parenthesesOperation
  {
    AfterFullReset(f, defaultOperator).(
      funVars := ListAdd(f.funVars, arg).value, inOrder := ListClear(f.inOrder),
      inOperationOrder := MapClear(f.inOperationOrder))
  }

  /** What a dump protects: after it, a roll-back changes nothing. */
  lemma DumpThenRollBack(f: Fields)
    requires StateOk(f) && Dumped(f).Ok?
    ensures RolledBackState(Dumped(f).value) == Dumped(f)
  {
    var d := Dumped(f).value;
    assert d.inOrder.elements[..|d.inOrder.elements| - 0] == d.inOrder.elements;
    assert MapSettle(d.inOperationOrder, false) == Ok(d.inOperationOrder);
  }

  /** What a roll-back undoes: the entries read into a scope since its last
      dump. */
  lemma RollBackAfterDump(f: Fields, es: seq<Ref>)
    requires StateOk(f) && Dumped(f).Ok?
    ensures var d := Dumped(f).value;
      ListAddAll(d.inOrder, es).Ok? &&
      RolledBack(ListAddAll(d.inOrder, es).value).elements == f.inOrder.elements
  {
    var d := Dumped(f).value;
    RollBackUndoesAdds(d.inOrder, es);
    assert d.inOrder.elements[..|d.inOrder.elements| - 0] == d.inOrder.elements;
  }

  /** The parser's mutable scan record. Java updates its fields one by one;
      the model keeps them in one record-valued field, so each method
      replaces the record by the one its specification function computes. */
  class ParsingState {
    var fields: Fields

    ghost predicate Valid()
      reads this
    {
      StateOk(fields)
    }

    /** `new ParsingState(parser)`. */
    constructor(defaultOperator: char, betweenVariables: char, mapSize: nat)
      ensures Valid() && fields == Initial(defaultOperator, betweenVariables, mapSize)
    {
      fields := Initial(defaultOperator, betweenVariables, mapSize);
    }

    method Reset()
      modifies this
      ensures fields == AfterReset(old(fields))
    {
      fields := fields.(currentValue := None, currentOperation := None, isNegative := false,
                        hasDecimalPoint := false, decimalPlace := 0.1, started := false);
    }

    method FullReset(defaultOperator: char)
      modifies this
      ensures fields == AfterFullReset(old(fields), defaultOperator)
    {
      Reset();
      fields := fields.(lastOperation := defaultOperator, lastAddedEntity := None);
    }

    method FinalFullReset(defaultOperator: char, betweenVariables: char, newMap: bool, mapSize: nat)
      requires Valid()
      modifies this
      ensures Valid() && fields == AfterFinalFullReset(old(fields), defaultOperator, betweenVariables, newMap, mapSize)
    {
      FullReset(defaultOperator);
      fields := fields.(inOrder := ListClear(fields.inOrder), parenthesesOperation := betweenVariables,
                        lastOperationPriority := 0, funcString := "", preFuncOp := None,
                        funVars := ListClear(fields.funVars), func := false, isFunc := false);
      if newMap {
        fields := fields.(inOperationOrder := EmptyMap(mapSize));
      }
    }

    method Dump() returns (o: Outcome)
      requires Valid()
      modifies this
      ensures Valid()
      ensures o.Pass? <==> Dumped(old(fields)).Ok?
      ensures o.Fail? ==> o.error == NullReference && fields == old(fields)
      ensures o.Pass? ==> fields == Dumped(old(fields)).value
    {
      var settled := MapSettle(fields.inOperationOrder, true);
      if settled.Err? {
        return Fail(settled.error);
      }
      fields := fields.(inOrder := Committed(fields.inOrder), inOperationOrder := settled.value);
      o := Pass;
    }

    method ResetFunc()
      requires Valid()
      modifies this
      ensures Valid() && fields == AfterResetFunc(old(fields))
    {
      fields := fields.(funcString := "", preFuncOp := None);
      if !fields.isFunc {
        fields := fields.(funVars := ListClear(fields.funVars));
      }
      fields := fields.(func := false);
    }

    method ClearTemp() returns (o: Outcome)
      requires Valid()
      modifies this
      ensures Valid()
      ensures o.Pass? <==> RolledBackState(old(fields)).Ok?
      ensures o.Fail? ==> o.error == NullReference && fields == old(fields)
      ensures o.Pass? ==> fields == RolledBackState(old(fields)).value
    {
      var settled := MapSettle(fields.inOperationOrder, false);
      if settled.Err? {
        return Fail(settled.error);
      }
      fields := fields.(inOrder := RolledBack(fields.inOrder), inOperationOrder := settled.value);
      o := Pass;
    }

    method PushArgument(arg: Ref, defaultOperator: char)
      requires Valid()
      modifies this
      ensures Valid() && fields == WithArgument(old(fields), arg, defaultOperator)
    {
      fields := fields.(funVars := ListAdd(fields.funVars, arg).value);
      fields := fields.(inOrder := ListClear(fields.inOrder));
      fields := fields.(inOperationOrder := MapClear(fields.inOperationOrder));
      FullReset(defaultOperator);
    }
  }
}
