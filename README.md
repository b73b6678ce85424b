# JLSP core in Dafny

JLSP is a runtime-extensible parser and evaluator for arithmetic expressions.
A `Parser` holds a configuration:

- operator chars, each with an implementation and a priority;
- decimal-comma chars and argument-delimiter chars;
- named functions;
- a few options.

It reads a formula string in one pass and builds a tree of entities. The
entities are number literals, replaceable variables (single letters),
function calls and nested formulas. A `Formula` keeps its entities three
ways: in reading order (`inOrder`), concatenated by priority bucket
(`inOperationOrder`) and as the lowest-priority bucket (`lowestPriority`). It
also keeps a first-occurrence table of its variables and two cached results:
a naive left-to-right one and an operation-order one.

This project models:

- that parser: its configuration tables, the dense priority ranking, the
  scan with its stack of parenthesis scopes, and the equal/lower/higher
  bucket rule with the right-association of `^` chains;
- the per-scope record `ParsingState`;
- the two checkpointed containers `TempList` and `TempMap`;
- the prefix index `NameSearcher`;
- the entities;
- formula construction, variable binding and evaluation with its caches.

It proves what those parts promise.

## How the model is built

- **Values for entities, one heap for all of them.** An entity is an
  `Entities.Entity` value. Java shares entity objects between containers:
  a bucket and `inOrder` hold the same object, and relabelling its operator
  through one is seen through the other. `setIndex` and `setLast` also
  change shared objects, and `clone` re-roots nested formulas it shares with
  the original. To keep that sharing observable, every entity lives once in
  a `Heap` (a class over `seq<Entity>`). Containers hold `Ref`s, which are
  positions in that heap.
- **Classes where Java updates fields in place.** These are `Parser` (its
  role arrays stay arrays), `ParsingState`, `TempList` (an `array` buffer),
  `TempMap` (arrays of buckets, journal and flags), `NameSearcher` and `Heap`.
  Each method is proved against a value-level specification function, and
  the lemmas are proved about those functions.
- **Errors are values.** Every Java exception the core can raise becomes an
  `Err`/`Fail` carrying an `Error` kind, in `wrappers.dfy`. These kinds
  include a char beyond the parser's limit, a missing implementation, an
  unbalanced `)`, a second decimal comma, an invalid operator symbol, too
  few values and a formula not yet enabled for evaluation.
- **Numbers are `real`.** Operator implementations are the function type
  `(left, right, wasFormula, innerNeg, outerMinus) -> real`, which follows
  Java's `compute(left, right, extra...)`. A function implementation is
  handed every argument of the call, as `compute(caller, inOperationOrder,
  entities...)` is. It says how many it reads, in order: a fixed count for
  `sin` or `pow`, or all of them for the loops of `min`, `max`, `avg`, `sum`
  and `median`. It also carries a combination of the values read.
- **Fuel.** Walks through nested formulas take an explicit fuel bound and
  report `OutOfFuel` when it is exhausted. Those walks are `getLast`,
  `setLast`, `setRoot` and evaluation. The parse gives them the heap size,
  and Java would overflow its stack where the fuel runs out.
- **The parser's limit.** `new Parser(size)` needs `size > '^'`, since
  `initDefaults` writes the `^` slot. The no-argument constructor uses 127.
  The role arrays have `size` slots. A char at or beyond the limit fails with
  `IndexOutOfBounds` wherever Java indexes an array with it.

## Behaviour reproduced as written

- **The naive fold reads too few entries.** The naive result folds the
  first `|inOperationOrder|` entries of `inOrder`
  (`Variables/Formula.java:326-328`). The documented intent of the naive
  result is a left-to-right reading, which gives `(2+3)*4 = 20` for `2+3*4`.
  By the definitions, the code instead folds only `2` and `3`, and `4` is
  never reached. The model follows the code (`Evaluation.FoldFrom` fails
  only when the count exceeds the list).
- **A root never serves its in-order cache.** The in-order cache test
  reads `root != null` (`Formula.java:265`), so a root formula always
  recomputes. The naive cache is served only at the root.
- **`TempMap.getAndRemoveLast` takes the last slot.** It detaches the last
  slot of the array, not the last used bucket; `size` is unchanged.
- **`existsTemp` is never reset.** Once `clearLists` has run, a bucket that
  still exists is not journalled again when it is touched.
- **Only top-level variables get indices.** `assignVariableIndices` visits
  the top-level `inOrder` only. Variables inside nested formulas keep
  index 0.
- **Finishing a call leaves the function fields set for the rest of the
  scope.** Closing a call's `)` does not clear the enclosing scope's
  `funcString` or `func` (`Parser.java:643-661`). While `funcString` is a
  registered name, the name block (`Parser.java:580-589`) is skipped for
  every char, so those fields stay set until the enclosing scope ends
  (`Parsers.Parser.ScanName` keeps the fields unchanged in that case). This
  has two consequences:
  - A later `(` in the same scope is read as another call of the same
    function, and it rolls back the scope's uncommitted entries
    (`Parser.java:594-604`).
  - An operator no longer flushes a pending literal (`Parser.java:744`;
    `Parsers.Parser.OperatorAfter` flushes only when `func` is unset). In
    `sin(1)+2-3`, the digits `2` and `3` become the single literal 23,
    signed by the `-`.
- **A minus sign negates both terms.** In `-2x` the minus marks both the
  literal and the variable that follows it as negative.
- **A non-zero empty-operand value leaks into literals.** With a non-zero
  `defaultValueBetweenEmptyOperators` `d`, a literal `n` of `k` digits that
  starts an operand reads as `d·10^k + n`.
- **End of input drops an unclosed call's last argument.** Closing the open
  scopes at end of input does not run `addFuncVariable`, so an unclosed
  function call loses its last argument.

## Model

| member | source | states |
|---|---|---|
| Entities.ValueOf | src/main/java/gmail/vladimir/JLSP/Variables/FormulaEntity.java:16-18 | a literal's value is its number, a variable's value is its letter (and only a variable's is a letter), a function's and a formula's value is 0 |
| Entities.NewReplaceable | src/main/java/gmail/vladimir/JLSP/Variables/ReplaceableVariable.java:13-16 | a new variable holds the given letter, preceding operator and negation flag, and its index is 0 until set |
| Entities.WithSymbol | src/main/java/gmail/vladimir/JLSP/Variables/FormulaEntity.java:24-26 | setting the preceding operator changes that symbol only: the value is unchanged and restoring the old symbol gives back the original entity |
| Entities.WithIndex | src/main/java/gmail/vladimir/JLSP/Variables/ReplaceableVariable.java:26-28 | setting the index keeps the letter, the negation flag (fixed at construction) and the preceding operator |
| Entities.Heap.SetPrecedentSymbol | src/main/java/gmail/vladimir/JLSP/Variables/FormulaEntity.java:24-26 | only the addressed entity changes, to itself with the new symbol, so every container sharing it sees the new symbol |
| Entities.Heap.SetIndex | src/main/java/gmail/vladimir/JLSP/Variables/ReplaceableVariable.java:26-28 | only the addressed variable changes, to itself with the new index |
| Entities.ReplaceableEquals | src/main/java/gmail/vladimir/JLSP/Variables/ReplaceableVariable.java:31-37 | equality of variables is reference identity: true exactly for the same heap entity |
| Entities.NewFunction | src/main/java/gmail/vladimir/JLSP/Variables/Function.java:11-17 | the parameters are exactly the first `size` entries of the buffer, as a separate copy; the id and symbol are as given and the value is 0 |
| NameSearch.Merge | src/main/java/gmail/vladimir/JLSP/Helpers/NameSearcher.java:21 | merging a prefix raises its count by one and leaves every other count alone; counts stay positive |
| NameSearch.Decrement | src/main/java/gmail/vladimir/JLSP/Helpers/NameSearcher.java:33 | a present prefix loses one count (and disappears at 0); an absent one is untouched; counts stay positive |
| NameSearch.AddPrefixesVal | src/main/java/gmail/vladimir/JLSP/Helpers/NameSearcher.java:16-23 | adding a name raises by one exactly the counts of its non-empty prefixes |
| NameSearch.RemovePrefixesVal | src/main/java/gmail/vladimir/JLSP/Helpers/NameSearcher.java:28-35 | removing a name lowers by one exactly the positive counts of its non-empty prefixes |
| NameSearch.WithNameKeys | src/main/java/gmail/vladimir/JLSP/Helpers/NameSearcher.java:16-23 | after adding a name, the present prefixes are the old ones plus every non-empty prefix of the name |
| NameSearch.AddThenRemove | src/main/java/gmail/vladimir/JLSP/Helpers/NameSearcher.java:16-35 | adding a name and then removing it restores the previous map exactly |
| NameSearch.CountAppend | src/main/java/gmail/vladimir/JLSP/Helpers/NameSearcher.java:16-23 | one more name adds one to the number of names starting with `p` exactly when the name starts with `p` |
| NameSearch.CountRemoveOne | src/main/java/gmail/vladimir/JLSP/Helpers/NameSearcher.java:28-35 | removing one occurrence of a name removes one from the number of names starting with each of its prefixes |
| NameSearch.TracksExists | src/main/java/gmail/vladimir/JLSP/Helpers/NameSearcher.java:18-22 | when the counts track a list of names, a prefix is present exactly when some name starts with it, and the empty prefix never is |
| NameSearch.CountPositive | src/main/java/gmail/vladimir/JLSP/Helpers/NameSearcher.java:40-42 | the number of names starting with `p` is positive exactly when some name starts with `p` |
| NameSearch.AddNameTracks | src/main/java/gmail/vladimir/JLSP/Helpers/NameSearcher.java:16-23 | after `addName(n)`, each prefix's count is the number of names, with multiplicity, that start with it |
| NameSearch.RemoveNameTracks | src/main/java/gmail/vladimir/JLSP/Helpers/NameSearcher.java:28-35 | after `removeName(n)` of a registered name, each prefix's count is the number of the remaining names that start with it; shared prefixes survive |
| NameSearch.NameSearcher.constructor | src/main/java/gmail/vladimir/JLSP/Helpers/NameSearcher.java:11 | a new index holds no prefix |
| NameSearch.NameSearcher.AddName | src/main/java/gmail/vladimir/JLSP/Helpers/NameSearcher.java:16-23 | the prefix-by-prefix loop leaves the map with the name's prefixes added |
| NameSearch.NameSearcher.RemoveName | src/main/java/gmail/vladimir/JLSP/Helpers/NameSearcher.java:28-35 | the loop leaves the map with the name's prefixes removed |
| NameSearch.NameSearcher.Exists | src/main/java/gmail/vladimir/JLSP/Helpers/NameSearcher.java:40-42 | a prefix exists exactly when its count is positive |
| NameSearch.NameSearcher.Clear | src/main/java/gmail/vladimir/JLSP/Helpers/NameSearcher.java:47-49 | every prefix is removed |
| TempLists.RolledBack | src/main/java/gmail/vladimir/JLSP/Helpers/TempList.java:75-80 | a rollback keeps exactly the committed prefix of the entries (size drops by `tempSize`) and leaves no temp entries |
| TempLists.Committed | src/main/java/gmail/vladimir/JLSP/Helpers/TempList.java:71-73 | a commit keeps every entry and leaves no temp entries |
| TempLists.GrownCapacity | src/main/java/gmail/vladimir/JLSP/Helpers/TempList.java:60-61 | the capacity triples exactly when the list is full, and then exceeds the size unless it is 0 |
| TempLists.ListAdd | src/main/java/gmail/vladimir/JLSP/Helpers/TempList.java:59-69 | adding succeeds exactly when the capacity is positive (a capacity-0 list cannot grow); the entry is appended, `tempSize` grows by one and `tempSize <= size <= capacity` is kept |
| TempLists.ListRemoveLast | src/main/java/gmail/vladimir/JLSP/Helpers/TempList.java:37-43 | the last entry goes if there is one; `tempSize` drops only when positive; the invariant is kept |
| TempLists.ListClear | src/main/java/gmail/vladimir/JLSP/Helpers/TempList.java:28-31 | no entries are left and the capacity is kept |
| TempLists.RollBackUndoesAdds | src/main/java/gmail/vladimir/JLSP/Helpers/TempList.java:59-80 | entries added after a checkpoint are exactly those a rollback removes and a commit keeps |
| TempLists.TempList.constructor | src/main/java/gmail/vladimir/JLSP/Helpers/TempList.java:14-17 | a new list is empty with capacity 16 |
| TempLists.TempList.WithCapacity | src/main/java/gmail/vladimir/JLSP/Helpers/TempList.java:19-22 | a new list is empty with the given capacity |
| TempLists.TempList.IsEmpty | src/main/java/gmail/vladimir/JLSP/Helpers/TempList.java:24-26 | true exactly when there are no entries |
| TempLists.TempList.Size | src/main/java/gmail/vladimir/JLSP/Helpers/TempList.java:33-35 | the number of live entries |
| TempLists.TempList.Clear | src/main/java/gmail/vladimir/JLSP/Helpers/TempList.java:28-31 | the list becomes empty while the array and its contents stay in place |
| TempLists.TempList.RemoveLast | src/main/java/gmail/vladimir/JLSP/Helpers/TempList.java:37-43 | the new state is `ListRemoveLast` of the old |
| TempLists.TempList.GetAndRemoveLast | src/main/java/gmail/vladimir/JLSP/Helpers/TempList.java:45-49 | on a non-empty list, returns the entry at `size-1` and removes it |
| TempLists.TempList.GetFirst | src/main/java/gmail/vladimir/JLSP/Helpers/TempList.java:51-53 | the first entry |
| TempLists.TempList.Get | src/main/java/gmail/vladimir/JLSP/Helpers/TempList.java:55-57 | the entry at position `i` |
| TempLists.TempList.Add | src/main/java/gmail/vladimir/JLSP/Helpers/TempList.java:59-69 | the new state is `ListAdd` of the old; the array is replaced only when full; on capacity 0 nothing changes (Java throws) |
| TempLists.TempList.ClearTemp | src/main/java/gmail/vladimir/JLSP/Helpers/TempList.java:71-73 | the new state is `Committed` of the old |
| TempLists.TempList.RemoveTemp | src/main/java/gmail/vladimir/JLSP/Helpers/TempList.java:75-80 | the new state is `RolledBack` of the old, and the vacated cells hold null |
| TempLists.TempList.GetArray | src/main/java/gmail/vladimir/JLSP/Helpers/TempList.java:82-84 | the live entries, in order |
| TempMaps.Settled | src/main/java/gmail/vladimir/JLSP/Helpers/TempMap.java:72-73 | a bucket after `clearLists`: committed or rolled back, with no temp entries |
| TempMaps.SettledIdempotent | src/main/java/gmail/vladimir/JLSP/Helpers/TempMap.java:69-76 | settling a bucket twice is settling it once |
| TempMaps.MapGetOrAdd | src/main/java/gmail/vladimir/JLSP/Helpers/TempMap.java:48-59 | succeeds exactly when the key is in range and either the bucket exists or the journal has room; an existing bucket leaves the map unchanged; a new one is an empty capacity-16 list, journalled, and `size` grows by one |
| TempMaps.MapAdd | src/main/java/gmail/vladimir/JLSP/Helpers/TempMap.java:48-59 | `getOrAdd(key).add(e)`: the key's bucket gains `e` at its end, every other bucket is unchanged, `size` never shrinks |
| TempMaps.SettleFrom | src/main/java/gmail/vladimir/JLSP/Helpers/TempMap.java:70-74 | the loop tail from journal entry `k` fails with a null reference exactly when a journalled bucket was detached |
| TempMaps.SettleFromSlots | src/main/java/gmail/vladimir/JLSP/Helpers/TempMap.java:70-74 | every journalled bucket from `k` on is settled once; every other slot is unchanged |
| TempMaps.MapSettle | src/main/java/gmail/vladimir/JLSP/Helpers/TempMap.java:69-76 | `clearLists` fails exactly when a journalled bucket is null; otherwise the journal becomes empty and `size` is kept |
| TempMaps.MapSettleSlots | src/main/java/gmail/vladimir/JLSP/Helpers/TempMap.java:69-76 | after `clearLists(commit)`, exactly the journalled buckets are committed or rolled back |
| TempMaps.MapClear | src/main/java/gmail/vladimir/JLSP/Helpers/TempMap.java:61-67 | every slot is null, the journal is empty and `size` is 0 |
| TempMaps.MapJoined | src/main/java/gmail/vladimir/JLSP/Helpers/TempMap.java:93-105 | the concatenation contains every bucket's entries, and is empty when all slots are null |
| TempMaps.MapGetAndRemoveLast | src/main/java/gmail/vladimir/JLSP/Helpers/TempMap.java:27-34 | an empty map gives null and is unchanged; otherwise the last slot of the array is returned and nulled, with `size` and the journal unchanged |
| TempMaps.TempMap.constructor | src/main/java/gmail/vladimir/JLSP/Helpers/TempMap.java:15-21 | `max` null slots, no flag set, an empty journal, size 0 |
| TempMaps.TempMap.IsEmpty | src/main/java/gmail/vladimir/JLSP/Helpers/TempMap.java:23-25 | `size == 0`, which implies that every slot is null |
| TempMaps.TempMap.GetAndRemoveLast | src/main/java/gmail/vladimir/JLSP/Helpers/TempMap.java:27-34 | null when `size` is 0; otherwise the last slot's bucket, with that slot nulled and every other slot unchanged |
| TempMaps.TempMap.Put | src/main/java/gmail/vladimir/JLSP/Helpers/TempMap.java:36-42 | fails with an out-of-bounds error exactly when the journal is full or the key is out of range (the model then leaves the map as it was); otherwise it stores the list, journals the key and grows `size` by one |
| TempMaps.TempMap.Store | src/main/java/gmail/vladimir/JLSP/Helpers/TempMap.java:37-40 | the stores of `put` once key and journal have room: the key is journalled, `size` grows by one, the list sits at the key, and every other slot is unchanged |
| TempMaps.TempMap.Journal | src/main/java/gmail/vladimir/JLSP/Helpers/TempMap.java:37-39 | the key is appended to the journal and flagged, `size` grows by one, and no bucket changes |
| TempMaps.TempMap.Attach | src/main/java/gmail/vladimir/JLSP/Helpers/TempMap.java:40 | the list sits at the key; the journal, `size` and every other slot are unchanged |
| TempMaps.TempMap.SureGet | src/main/java/gmail/vladimir/JLSP/Helpers/TempMap.java:44-46 | the bucket in the key's slot |
| TempMaps.TempMap.GetOrAdd | src/main/java/gmail/vladimir/JLSP/Helpers/TempMap.java:48-59 | returns the existing bucket without journalling it again, or stores and journals a new empty bucket; fails exactly as `MapGetOrAdd` does |
| TempMaps.TempMap.Clear | src/main/java/gmail/vladimir/JLSP/Helpers/TempMap.java:61-67 | every slot is null, `tempIndex` and `size` are 0, and the flags stay as they were |
| TempMaps.TempMap.ClearLists | src/main/java/gmail/vladimir/JLSP/Helpers/TempMap.java:69-76 | succeeds exactly when every journalled bucket is present; then `tempIndex` is 0 and exactly the journalled buckets are settled |
| TempMaps.TempMap.SettleAll | src/main/java/gmail/vladimir/JLSP/Helpers/TempMap.java:70-74 | the loop of `clearLists` succeeds exactly when every journalled bucket is present, and then every journalled bucket is settled, in journal order |
| TempMaps.TempMap.SettleNext | src/main/java/gmail/vladimir/JLSP/Helpers/TempMap.java:71-73 | one turn of the loop fails exactly when the bucket at journal position `k` is null; otherwise that bucket is settled too |
| TempMaps.TempMap.SettleAt | src/main/java/gmail/vladimir/JLSP/Helpers/TempMap.java:72-73 | the bucket at the key is committed (`clearTemp`) or rolled back (`removeTemp`); every other slot, the journal and `size` are unchanged |
| TempMaps.TempMap.Complete | src/main/java/gmail/vladimir/JLSP/Helpers/TempMap.java:78-108 | a new list holding the non-null buckets' entries concatenated in ascending key order; capacity 0 when the map is empty |
| TempMaps.TempMap.AppendAll | src/main/java/gmail/vladimir/JLSP/Helpers/TempMap.java:99-104 | the target list gains the source's entries, in order |
| TempMaps.TempMap.AddAt | src/main/java/gmail/vladimir/JLSP/Helpers/TempList.java:59-69 | `add` on one bucket of the map: that bucket gains the entry, nothing else in the map changes |
| TempMaps.TempMap.RemoveLastAt | src/main/java/gmail/vladimir/JLSP/Helpers/TempList.java:37-43 | `removeLast` on one bucket: that bucket loses its last entry, nothing else changes |
| TempMaps.TempMap.GetAndRemoveLastAt | src/main/java/gmail/vladimir/JLSP/Helpers/TempList.java:45-49 | `getAndRemoveLast` on one bucket: returns and removes its last entry, nothing else changes |
| Formulas.InsertAllProps | src/main/java/gmail/vladimir/JLSP/Variables/Formula.java:53-60 | inserting into a linked set keeps it duplicate-free and in order, and its members are the old ones plus the inserted ones |
| Formulas.InsertAllAppend | src/main/java/gmail/vladimir/JLSP/Variables/Formula.java:53-60 | inserting two runs one after the other is inserting their concatenation |
| Formulas.DedupFirstOccurrence | src/main/java/gmail/vladimir/JLSP/Variables/Formula.java:53-60 | the variable names are the distinct letters of the walk, in first-occurrence order |
| Formulas.IndexOf | src/main/java/gmail/vladimir/JLSP/Variables/Formula.java:70-75 | the index has exactly the names as keys, each mapped to a position in the table |
| Formulas.IndexInverse | src/main/java/gmail/vladimir/JLSP/Variables/Formula.java:70-75 | for distinct names, `variableIndex` is the inverse of `variableNames` |
| Formulas.MarkRootsUnion | src/main/java/gmail/vladimir/JLSP/Variables/Formula.java:118-131 | re-rooting two sets of formulas in turn is re-rooting their union |
| Formulas.WalkSkeleton | src/main/java/gmail/vladimir/JLSP/Variables/Formula.java:118-131 | re-rooting changes nothing the walk reads: heaps with the same shape give the same letters and reach the same formulas |
| Formulas.SetRoot | src/main/java/gmail/vladimir/JLSP/Variables/Formula.java:118-131 | the formula and everything it reaches (recursively) get the new root; the set gains the letters met, in walk order; fails only on fuel |
| Formulas.SetRootAll | src/main/java/gmail/vladimir/JLSP/Variables/Formula.java:54-60 | the constructor's loop: each entry's letters are added and each nested formula is re-rooted |
| Formulas.SetRootOne | src/main/java/gmail/vladimir/JLSP/Variables/Formula.java:124-130 | one entry: a variable adds its letter, a nested formula recurses, anything else is skipped |
| Formulas.RootFormula | src/main/java/gmail/vladimir/JLSP/Variables/Formula.java:62-80 | the root's table: values come from the replacements (0 otherwise), a flag is set exactly when a replacement exists, the index is the inverse of the names, and evaluation is enabled exactly when every variable is set |
| Formulas.NoValuesEnabledIffNoVariables | src/main/java/gmail/vladimir/JLSP/Variables/Formula.java:69-79 | without replacement values, a new formula is enabled for evaluation exactly when it has no variables |
| Formulas.ShortValue | src/main/java/gmail/vladimir/JLSP/Variables/Formula.java:89 | `Integer.shortValue`: in the 16-bit range, and the identity there |
| Formulas.AssignVariableIndices | src/main/java/gmail/vladimir/JLSP/Variables/Formula.java:83-92 | each top-level variable of the list with a known letter gets that letter's index; nothing else changes |
| Formulas.NewRootFormula | src/main/java/gmail/vladimir/JLSP/Variables/Formula.java:43-81 | the heap gains the new root with its table, everything it reaches is re-rooted to it, and top-level variables are indexed; fails only on fuel |
| Formulas.AllocateAndWalk | src/main/java/gmail/vladimir/JLSP/Variables/Formula.java:43-60 | the new formula becomes the last heap cell; the `setRoot` walk fails only on fuel, and otherwise it returns the letters in first-occurrence order and re-roots every formula it reaches to the new one |
| Formulas.WriteTable | src/main/java/gmail/vladimir/JLSP/Variables/Formula.java:62-75 | the new formula gets the names, values, flags and index that `RootFormula` gives for its letters and replacement values; the rest of the heap is unchanged |
| Formulas.InstallTable | src/main/java/gmail/vladimir/JLSP/Variables/Formula.java:62-80 | the table is written, the top-level variables take their slots, and evaluation is enabled exactly when every letter has a value |
| Formulas.BuildTable | src/main/java/gmail/vladimir/JLSP/Variables/Formula.java:68-75 | the table loop: each name's value and flag come from the replacements, and the index maps names to positions |
| Formulas.NewNestedFormula | src/main/java/gmail/vladimir/JLSP/Variables/Formula.java:99-113 | a nested formula: the given lists and symbol, an empty table, enabled, caches dirty, no root |
| Formulas.Clone | src/main/java/gmail/vladimir/JLSP/Variables/Formula.java:398-418 | a new root formula over the same lists, whose precedent symbol is `symbol` (Java passes the parser's default operator), with its values copied exactly when `cloneReplacementValues` holds; because the lists are shared, the rest of the heap becomes what the main constructor leaves: every nested formula the original reaches is re-rooted to the clone, and the shared top-level variables take the clone's slots |
| Formulas.ValuesMap | src/main/java/gmail/vladimir/JLSP/Variables/Formula.java:412-416 | the replacement map has exactly the formula's names as keys |
| Formulas.CloneKeepsValues | src/main/java/gmail/vladimir/JLSP/Variables/Formula.java:408-418 | a clone with values gives each variable its current value, marked set |
| Formulas.IsValid | src/main/java/gmail/vladimir/JLSP/Variables/Formula.java:226-232 | true exactly when every variable is set |
| Formulas.ResetCache | src/main/java/gmail/vladimir/JLSP/Variables/Formula.java:362-367 | both caches become dirty and zero; nothing else changes |
| Formulas.BindAll | src/main/java/gmail/vladimir/JLSP/Variables/Formula.java:178-183 | the first `n` values are bound in order, all flags set, evaluation enabled, caches cleared; nothing else of the formula changes |
| Formulas.SetVariables | src/main/java/gmail/vladimir/JLSP/Variables/Formula.java:174-185 | too few values fail and change nothing; otherwise the formula is `BindAll` of the values, and extra values are ignored |
| Formulas.BindOne | src/main/java/gmail/vladimir/JLSP/Variables/Formula.java:209-222 | a known letter's value and flag are set, the caches cleared, and evaluation becomes enabled exactly when all flags are now true (or it already was) |
| Formulas.SetVariable | src/main/java/gmail/vladimir/JLSP/Variables/Formula.java:202-224 | an unknown letter changes nothing, caches included; a known one gives `BindOne` |
| Formulas.BindSeqFlags | src/main/java/gmail/vladimir/JLSP/Variables/Formula.java:202-224 | binding the first `k` names one by one sets exactly their flags |
| Formulas.BindEachEnables | src/main/java/gmail/vladimir/JLSP/Variables/Formula.java:211-213 | binding every variable one by one enables evaluation |
| Formulas.GetLast | src/main/java/gmail/vladimir/JLSP/Variables/Formula.java:421-428 | descends through trailing nested formulas to a last entity that is not a formula; an empty list fails as Java's index would |
| Formulas.SetLastSpec | src/main/java/gmail/vladimir/JLSP/Variables/Formula.java:431-441 | only the deepest trailing formula changes, and entity kinds are kept |
| Formulas.SetLast | src/main/java/gmail/vladimir/JLSP/Variables/Formula.java:431-441 | the heap after the loop is `SetLastSpec`'s, with the same outcome |
| Formulas.SetLastThenGetLast | src/main/java/gmail/vladimir/JLSP/Variables/Formula.java:421-441 | after `setLast(e)` with `e` not a formula, `getLast` returns `e` |
| Evaluation.After | src/main/java/gmail/vladimir/JLSP/Variables/Formula.java:355-357 | the flags handed on after an entity: it was a formula, its value was negative, it was a formula preceded by `-` |
| Evaluation.Priority | src/main/java/gmail/vladimir/JLSP/Parser/Parser.java:199-201 | the stored priority, or an out-of-bounds failure beyond the limit |
| Evaluation.Compute | src/main/java/gmail/vladimir/JLSP/Parser/Parser.java:1137-1139 | the char's implementation applied to both operands and the flags; fails beyond the limit, and on a missing implementation |
| Evaluation.Store | src/main/java/gmail/vladimir/JLSP/Variables/Formula.java:333-340 | the result is cached, and its dirty flag is cleared only at a root; the other cache is untouched |
| Evaluation.EntityValue | src/main/java/gmail/vladimir/JLSP/Parser/Parser.java:1152-1168 | `processEntity`: evaluating an entity changes formula caches only |
| Evaluation.FunctionValue | src/main/java/gmail/vladimir/JLSP/Parser/Parser.java:1148-1150 | `computeFunction`: the registered (or default) implementation is handed every argument and combines those it reads; changes caches only |
| Evaluation.ArgValues | src/main/java/gmail/vladimir/JLSP/Parser/Parser.java:1148-1150 | the argument values, one per argument read, in order |
| Evaluation.NaiveValue | src/main/java/gmail/vladimir/JLSP/Variables/Formula.java:239-243 | a root with a clean naive cache answers from it without evaluating anything |
| Evaluation.InOrderValue | src/main/java/gmail/vladimir/JLSP/Variables/Formula.java:261-269 | a root always recomputes (the cache is consulted only when `root != null`) |
| Evaluation.ResultValue | src/main/java/gmail/vladimir/JLSP/Variables/Formula.java:289-343 | fails while evaluation is not enabled, changing nothing; a success is cached in the matching slot, and its flag is cleared at a root |
| Evaluation.SplitValue | src/main/java/gmail/vladimir/JLSP/Variables/Formula.java:295-324 | the first stage gives one partial sum per priority-0 boundary, plus one |
| Evaluation.SplitFrom | src/main/java/gmail/vladimir/JLSP/Variables/Formula.java:304-323 | the split loop keeps the partial sums already emitted and adds one per boundary ahead |
| Evaluation.FirstCut | src/main/java/gmail/vladimir/JLSP/Variables/Formula.java:307-312 | the end of the current run: every pair before it has a non-zero priority, and the pair at it has priority 0 or none |
| Evaluation.Runs | src/main/java/gmail/vladimir/JLSP/Variables/Formula.java:295-323 | a reference for the first stage: the pairs are cut before each priority-0 operator, the first run is folded from the first value and each later run from 0, and the run sums are listed in order; without a cut it is the plain fold |
| Evaluation.RunsStep | src/main/java/gmail/vladimir/JLSP/Variables/Formula.java:317-321 | a pair of non-zero priority continues the current run with one more operator application |
| Evaluation.RunsCut | src/main/java/gmail/vladimir/JLSP/Variables/Formula.java:307-321 | a priority-0 pair closes the current run at its sum and opens the next from 0; an operator without a priority fails |
| Evaluation.SplitFromLiteral | src/main/java/gmail/vladimir/JLSP/Variables/Formula.java:304-323 | one turn of the split loop at a number literal: the priority lookup, the reset to 0 on a cut, one operator application, and the heap unchanged |
| Evaluation.SplitOfNumbers | src/main/java/gmail/vladimir/JLSP/Variables/Formula.java:304-323 | over number literals, the split loop appends to the sums already emitted exactly the run sums of `Runs`, fails exactly when `Runs` fails, and writes nothing |
| Evaluation.SplitStepOfNumbers | src/main/java/gmail/vladimir/JLSP/Variables/Formula.java:304-323 | the same, where the entry continues the current run |
| Evaluation.SplitCutOfNumbers | src/main/java/gmail/vladimir/JLSP/Variables/Formula.java:304-323 | the same, where the entry closes the current run |
| Evaluation.SplitValueOfNumbers | src/main/java/gmail/vladimir/JLSP/Variables/Formula.java:295-324 | over number literals, the first stage is `Runs` over the entries after the first, started from the first entry's bare value, and writes nothing |
| Evaluation.FoldFrom | src/main/java/gmail/vladimir/JLSP/Variables/Formula.java:345-360 | `processChar`: asking for more entries than the list holds fails, as the naive path can |
| Evaluation.StaticFold | src/main/java/gmail/vladimir/JLSP/Variables/Formula.java:330-331 | folding no partial sums returns the start value; folding some needs the default operator's implementation |
| Evaluation.ZeroCountEvolves | src/main/java/gmail/vladimir/JLSP/Variables/Formula.java:307-312 | the number of priority-0 boundaries does not depend on cache states |
| Evaluation.FoldOfNumbers | src/main/java/gmail/vladimir/JLSP/Variables/Formula.java:345-360 | over number literals, `processChar` is a plain left fold of the operators and values, and leaves the heap unchanged |
| Evaluation.ArgsOfNumbers | src/main/java/gmail/vladimir/JLSP/Parser/Parser.java:1152-1155 | arguments that are number literals evaluate to their values, in order, and change nothing |
| Evaluation.FunctionOfNumbers | src/main/java/gmail/vladimir/JLSP/Parser/Parser.java:1004-1039 | a call over number literals gives the implementation's combination of the values it reads: all of them for a looping implementation such as `sum`, the first `k` for a fixed arity `k`, and an out-of-bounds failure when fewer than `k` are given; nothing else changes |
| Evaluation.NaiveCacheHit | src/main/java/gmail/vladimir/JLSP/Variables/Formula.java:239-243 | after `result(false)` at a root, the next `naiveResult()` returns the stored value without recomputing |
| Evaluation.StoreResult | src/main/java/gmail/vladimir/JLSP/Variables/Formula.java:333-340 | the heap after the cache write is `Store`'s |
| Evaluation.ProcessEntity | src/main/java/gmail/vladimir/JLSP/Parser/Parser.java:1152-1168 | value and heap are exactly `EntityValue`'s |
| Evaluation.FormulaEntity | src/main/java/gmail/vladimir/JLSP/Parser/Parser.java:1156-1159 | a nested formula gives exactly `EntityValue`'s value and heap |
| Evaluation.NestedInOrder | src/main/java/gmail/vladimir/JLSP/Parser/Parser.java:1158 | a nested formula in operation order: exactly `EntityValue` |
| Evaluation.NestedNaive | src/main/java/gmail/vladimir/JLSP/Parser/Parser.java:1158 | a nested formula evaluated naively: exactly `EntityValue` |
| Evaluation.VariableEntity | src/main/java/gmail/vladimir/JLSP/Parser/Parser.java:1164-1167 | a variable reads its slot in the root's (or its own) table, negated when marked |
| Evaluation.ComputeFunction | src/main/java/gmail/vladimir/JLSP/Parser/Parser.java:1148-1150 | value and heap are exactly `FunctionValue`'s, so a looping implementation reads every parameter of `func.getParams()` |
| Evaluation.Arguments | src/main/java/gmail/vladimir/JLSP/Parser/Parser.java:1148-1150 | the argument loop gives exactly `ArgValues` |
| Evaluation.Naive | src/main/java/gmail/vladimir/JLSP/Variables/Formula.java:242 | value and heap are exactly `NaiveValue`'s |
| Evaluation.InOperationOrder | src/main/java/gmail/vladimir/JLSP/Variables/Formula.java:265-268 | value and heap are exactly `InOrderValue`'s |
| Evaluation.Result | src/main/java/gmail/vladimir/JLSP/Variables/Formula.java:289-343 | value and heap are exactly `ResultValue`'s |
| Evaluation.Split | src/main/java/gmail/vladimir/JLSP/Variables/Formula.java:295-324 | the first-stage loop gives exactly `SplitValue` |
| Evaluation.SplitStep | src/main/java/gmail/vladimir/JLSP/Variables/Formula.java:305-321 | one iteration of the split loop advances `SplitFrom` by one entry |
| Evaluation.ProcessChar | src/main/java/gmail/vladimir/JLSP/Variables/Formula.java:345-360 | the fold loop gives exactly `FoldFrom` |
| Evaluation.FoldExtra | src/main/java/gmail/vladimir/JLSP/Variables/Formula.java:330-331 | folding the partial sums gives exactly `StaticFold` |
| Evaluation.Bound | src/main/java/gmail/vladimir/JLSP/Variables/Formula.java:240-241 | passing too few values (but some) fails; passing enough binds them, enables evaluation and clears the caches; no other entity changes |
| Evaluation.NaiveEntry | src/main/java/gmail/vladimir/JLSP/Variables/Formula.java:239-243 | `naiveResult(values)` with too few values fails and changes nothing |
| Evaluation.InOrderEntry | src/main/java/gmail/vladimir/JLSP/Variables/Formula.java:261-269 | `inOperationOrderResult(values)` with too few values fails and changes nothing |
| Evaluation.BindingRecomputes | src/main/java/gmail/vladimir/JLSP/Variables/Formula.java:239-269 | passing values always recomputes: both entry points equal `result` on the rebound formula |
| Evaluation.Bind | src/main/java/gmail/vladimir/JLSP/Variables/Formula.java:240-241 | the heap after binding is `Bound`'s, or unchanged on failure |
| Evaluation.NaiveResult | src/main/java/gmail/vladimir/JLSP/Variables/Formula.java:239-243 | value and heap are exactly `NaiveEntry`'s |
| Evaluation.InOperationOrderResult | src/main/java/gmail/vladimir/JLSP/Variables/Formula.java:261-269 | value and heap are exactly `InOrderEntry`'s |
| OperatorTables.MaxPriority | src/main/java/gmail/vladimir/JLSP/Parser/Parser.java:1171-1179 | the highest priority of a present operator (-1 when none is present), attained by some present operator |
| OperatorTables.IndexByPriority | src/main/java/gmail/vladimir/JLSP/Parser/Parser.java:1127-1130 | -1 outside the table, the tabulated rank inside it |
| OperatorTables.RankUsed | src/main/java/gmail/vladimir/JLSP/Parser/Parser.java:1170-1202 | a priority has a rank (at least 0) exactly when some present operator holds it; every other priority maps to -1 |
| OperatorTables.RankDescending | src/main/java/gmail/vladimir/JLSP/Parser/Parser.java:1194-1199 | a higher priority gets a smaller rank |
| OperatorTables.RankTop | src/main/java/gmail/vladimir/JLSP/Parser/Parser.java:1195-1199 | the highest priority in use gets rank 0 |
| OperatorTables.RankDense | src/main/java/gmail/vladimir/JLSP/Parser/Parser.java:1195-1199 | ranks have no gaps: every rank above 0 has its predecessor at a higher priority |
| OperatorTables.RankInMap | src/main/java/gmail/vladimir/JLSP/Parser/Parser.java:1201 | when priority 0 is in use, every used priority's rank is a valid bucket of a map of `opIndexMapSize` |
| OperatorTables.RankFrame | src/main/java/gmail/vladimir/JLSP/Parser/Parser.java:172-175 | priorities of absent chars do not affect the ranks, so changing a non-operator's priority leaves them unchanged |
| OperatorTables.NoneUsed | src/main/java/gmail/vladimir/JLSP/Parser/Parser.java:1180-1183 | with no operator present the table is empty and the map size is 1 |
| OperatorTables.ComputeRanks | src/main/java/gmail/vladimir/JLSP/Parser/Parser.java:1170-1202 | `rebuildPriorityIndex` computes exactly the rank table and the map size |
| OperatorTables.HighestPriority | src/main/java/gmail/vladimir/JLSP/Parser/Parser.java:1171-1179 | the first loop computes exactly `MaxPriority` |
| OperatorTables.MarkUsed | src/main/java/gmail/vladimir/JLSP/Parser/Parser.java:1186-1194 | the used priorities, marked in a fresh array |
| OperatorTables.AssignRanks | src/main/java/gmail/vladimir/JLSP/Parser/Parser.java:1195-1199 | a used priority's rank is the number of used priorities above it; an unused one gets -1 |
| ParserRules.DefaultPriority | src/main/java/gmail/vladimir/JLSP/Parser/Parser.java:921-945 | the default operators have non-negative priorities, `^` has 10 |
| ParserRules.DefaultTables | src/main/java/gmail/vladimir/JLSP/Parser/Parser.java:921-945 | the defaults mark exactly `^ * / % + -` present, with priorities `^` 10, `* / %` 5, `+ -` 0 |
| ParserRules.DefaultImpls | src/main/java/gmail/vladimir/JLSP/Parser/Parser.java:921-945 | each default operator is given its own implementation |
| ParserRules.ClampPriority | src/main/java/gmail/vladimir/JLSP/Parser/Parser.java:151 | `Math.max(priority, 0)`: never negative, the identity on non-negative priorities |
| ParserRules.RolesAdd | src/main/java/gmail/vladimir/JLSP/Parser/Parser.java:146-153 | making a free char an operator keeps the three roles exclusive |
| ParserRules.RolesRemove | src/main/java/gmail/vladimir/JLSP/Parser/Parser.java:182-186 | removing an operator keeps the roles exclusive |
| ParserRules.RolesPriority | src/main/java/gmail/vladimir/JLSP/Parser/Parser.java:172-174 | changing a priority keeps the roles exclusive |
| ParserRules.RemoveOneDistinct | src/main/java/gmail/vladimir/JLSP/Parser/Parser.java:526-534 | removing an id from the registry's names leaves the other names, still distinct |
| ParserRules.KeepsSetLast | src/main/java/gmail/vladimir/JLSP/Variables/Formula.java:431-441 | `setLast` never changes a literal, a variable or a call, only formula lists |
| ParserRules.KeepsRooted | src/main/java/gmail/vladimir/JLSP/Variables/Formula.java:43-81 | building a root formula never changes a literal's value or a variable's letter |
| ParserRules.PowFormula | src/main/java/gmail/vladimir/JLSP/Parser/Parser.java:892 | the grouping formula holds its two operands in both lists, under `^`, with no lowest-priority list |
| ParserRules.GroupedIntoFormula | src/main/java/gmail/vladimir/JLSP/Parser/Parser.java:882-886 | folding into a trailing formula adds one formula and changes no literal, variable or call |
| ParserRules.GroupedIntro | src/main/java/gmail/vladimir/JLSP/Parser/Parser.java:878-895 | replacing a bucket's last two entries by their grouping is a `Grouped` step: the bucket shrinks by exactly one |
| ParserRules.MapDetachLast | src/main/java/gmail/vladimir/JLSP/Parser/Parser.java:843-846 | `getOrAdd` on the old rank followed by `removeLast`: that bucket loses its last entry; every other bucket is unchanged |
| ParserRules.Relabelled | src/main/java/gmail/vladimir/JLSP/Parser/Parser.java:848-849 | the surviving first entry of a non-zero bucket takes the last operator; nothing else changes |
| ParserRules.AddPair | src/main/java/gmail/vladimir/JLSP/Parser/Parser.java:853-857 | the new rank's bucket gains the previous entity (if any) and then the new one; every other bucket is unchanged |
| ParserRules.HigherPlacedIntro | src/main/java/gmail/vladimir/JLSP/Parser/Parser.java:843-857 | the higher-priority rule moves the previous entity from its bucket to the new one, followed by the new entity |
| ParserRules.NameStep | src/main/java/gmail/vladimir/JLSP/Parser/Parser.java:580-589 | a name char keeps the buffer while it can still become a function name; otherwise the scope commits and the buffer empties; fails only when committing does |
| ParserRules.DigitRead | src/main/java/gmail/vladimir/JLSP/Parser/Parser.java:758-768 | a digit either shifts the literal one place left and adds it, or adds it at the current decimal place and shrinks the place tenfold |
| ParserRules.PrefixStep | src/main/java/gmail/vladimir/JLSP/Parser/Parser.java:616-618 | a prefix is unbalanced exactly when a shorter one was or one more `)` makes the depth negative |
| ParserRules.PrefixGrows | src/main/java/gmail/vladimir/JLSP/Parser/Parser.java:616-618 | once a prefix is unbalanced, the whole formula is |
| Literals.FromChar | src/main/java/gmail/vladimir/JLSP/Parser/Parser.java:1239-1241 | a decimal digit's value, -1 exactly for non-digits |
| Literals.ReadIntegerValue | src/main/java/gmail/vladimir/JLSP/Parser/Parser.java:767-768 | reading digits one by one computes their positional decimal value on top of the shifted start value |
| Literals.ReadIntegerAppend | src/main/java/gmail/vladimir/JLSP/Parser/Parser.java:767-768 | the per-char steps compose: reading one more digit extends the reading |
| Literals.ReadFractionValue | src/main/java/gmail/vladimir/JLSP/Parser/Parser.java:761-765 | reading fraction digits adds their scaled value at the first place, and shrinks the place once per digit |
| Literals.ReadFractionAppend | src/main/java/gmail/vladimir/JLSP/Parser/Parser.java:761-765 | the fractional steps compose like the integer ones |
| Literals.ScaledBelowTen | src/main/java/gmail/vladimir/JLSP/Parser/Parser.java:761-765 | fraction digits never carry into the integer part |
| Literals.FormatStatic | src/main/java/gmail/vladimir/JLSP/Parser/Parser.java:1243-1245 | a negated literal is made non-positive with its magnitude kept; otherwise it is unchanged |
| Literals.DepthStep | src/main/java/gmail/vladimir/JLSP/Parser/Parser.java:591-625 | the open-parenthesis depth moves by one per `(` or `)` |
| ParsingStates.Initial | src/main/java/gmail/vladimir/JLSP/Parser/ParsingState.java:33 | a fresh scope: empty lists, an empty map of the parser's map size, no pending literal or operator, the default and between-variables operators, no function name |
| ParsingStates.AfterReset | src/main/java/gmail/vladimir/JLSP/Parser/ParsingState.java:35-42 | the pending literal, operator, negation, decimal and started flags are cleared, `decimalPlace` is 0.1, and nothing else changes |
| ParsingStates.AfterFullReset | src/main/java/gmail/vladimir/JLSP/Parser/ParsingState.java:44-48 | `reset`, plus the last operation set to the default operator and no last entity |
| ParsingStates.AfterFinalFullReset | src/main/java/gmail/vladimir/JLSP/Parser/ParsingState.java:50-66 | everything as in a fresh scope; the lists are cleared but keep their capacity; the map is replaced only when `newMap` holds |
| ParsingStates.Dumped | src/main/java/gmail/vladimir/JLSP/Parser/ParsingState.java:68-71 | `dump` commits `inOrder` and every journalled bucket and keeps every entry; it fails exactly as `clearLists` does |
| ParsingStates.RolledBackState | src/main/java/gmail/vladimir/JLSP/Parser/ParsingState.java:81-84 | `clearTemp` rolls back `inOrder` and every journalled bucket |
| ParsingStates.AfterResetFunc | src/main/java/gmail/vladimir/JLSP/Parser/ParsingState.java:73-79 | the name buffer, `preFuncOp` and `func` are cleared; `funVars` is cleared only outside a function-argument scope |
| ParsingStates.WithArgument | src/main/java/gmail/vladimir/JLSP/Parser/ParsingState.java:86-93 | `funVars` gains exactly the finished argument; `inOrder` and the map are emptied; the scope is fully reset |
| ParsingStates.DumpThenRollBack | src/main/java/gmail/vladimir/JLSP/Parser/ParsingState.java:68-84 | after a commit, a rollback removes nothing |
| ParsingStates.RollBackAfterDump | src/main/java/gmail/vladimir/JLSP/Parser/ParsingState.java:68-84 | entries added after a commit are exactly those a rollback removes |
| ParsingStates.ParsingState.constructor | src/main/java/gmail/vladimir/JLSP/Parser/ParsingState.java:33 | the state is `Initial` |
| ParsingStates.ParsingState.Reset | src/main/java/gmail/vladimir/JLSP/Parser/ParsingState.java:35-42 | the state becomes `AfterReset` of the old |
| ParsingStates.ParsingState.FullReset | src/main/java/gmail/vladimir/JLSP/Parser/ParsingState.java:44-48 | the state becomes `AfterFullReset` of the old |
| ParsingStates.ParsingState.FinalFullReset | src/main/java/gmail/vladimir/JLSP/Parser/ParsingState.java:50-66 | the state becomes `AfterFinalFullReset` of the old |
| ParsingStates.ParsingState.Dump | src/main/java/gmail/vladimir/JLSP/Parser/ParsingState.java:68-71 | the state becomes `Dumped` of the old, or the call fails with a null reference |
| ParsingStates.ParsingState.ResetFunc | src/main/java/gmail/vladimir/JLSP/Parser/ParsingState.java:73-79 | the state becomes `AfterResetFunc` of the old |
| ParsingStates.ParsingState.ClearTemp | src/main/java/gmail/vladimir/JLSP/Parser/ParsingState.java:81-84 | the state becomes `RolledBackState` of the old, or the call fails with a null reference |
| ParsingStates.ParsingState.PushArgument | src/main/java/gmail/vladimir/JLSP/Parser/ParsingState.java:88-92 | the state becomes `WithArgument` of the old |
| Parsers.Parser.constructor | src/main/java/gmail/vladimir/JLSP/Parser/Parser.java:65-68 | the arrays have the limit as size; exactly the default operators are present with their priorities; `.` is the only comma, `,` the only delimiter; the default functions are registered; default options |
| Parsers.Parser.Reset | src/main/java/gmail/vladimir/JLSP/Parser/Parser.java:110-112 | `initDefaults`: the same configuration as a new parser |
| Parsers.Parser.ClearAll | src/main/java/gmail/vladimir/JLSP/Parser/Parser.java:902-919 | no role on any char, no function, the default options |
| Parsers.Parser.AddDefaultOperators | src/main/java/gmail/vladimir/JLSP/Parser/Parser.java:921-945 | registers `^ * / % + -` with their priorities and implementations and nothing else |
| Parsers.Parser.AddDefaultSeparators | src/main/java/gmail/vladimir/JLSP/Parser/Parser.java:947-949 | `.` becomes the only comma and `,` the only delimiter |
| Parsers.Parser.AddDefaultFunctions | src/main/java/gmail/vladimir/JLSP/Parser/Parser.java:951-1121 | the functions are exactly the default names with their implementations |
| Parsers.Parser.ClearArrays | src/main/java/gmail/vladimir/JLSP/Parser/Parser.java:915-919 | no char has an implementation, a priority, an operator role, a comma role or a delimiter role |
| Parsers.Parser.RegisterDefaults | src/main/java/gmail/vladimir/JLSP/Parser/Parser.java:921-945 | `^ * / % + -` become present with priorities 10, 5, 5, 5, 0, 0 and their own implementations; every other char, the options and the functions keep what they had |
| Parsers.Parser.AddBuiltinOperator | src/main/java/gmail/vladimir/JLSP/Parser/Parser.java:921-945 | one `addOperator` call: the char becomes present with its priority and its built-in implementation; every other char, the options and the functions are unchanged |
| Parsers.Parser.AddBuiltins | src/main/java/gmail/vladimir/JLSP/Parser/Parser.java:954-1121 | the functions become the old ones plus the given names, each given name with its built-in implementation; the options and the operator ranks are unchanged |
| Parsers.Parser.Rank | src/main/java/gmail/vladimir/JLSP/Parser/Parser.java:1127-1130 | -1 for a priority outside the rank table, the tabulated rank inside it |
| Parsers.Parser.AddOperator | src/main/java/gmail/vladimir/JLSP/Parser/Parser.java:146-155 | fails when the char is a comma or a delimiter, leaving the tables unchanged; otherwise stores the implementation and `max(priority, 0)`, marks the char present, re-ranks and returns the old implementation and priority |
| Parsers.Parser.ChangeOperatorPriority | src/main/java/gmail/vladimir/JLSP/Parser/Parser.java:172-175 | stores `max(priority, 0)` and re-ranks; fails only beyond the limit |
| Parsers.Parser.RemoveOperator | src/main/java/gmail/vladimir/JLSP/Parser/Parser.java:182-187 | the char becomes (no implementation, -1, absent) and the ranks are rebuilt |
| Parsers.Parser.OperatorPriority | src/main/java/gmail/vladimir/JLSP/Parser/Parser.java:199-201 | the stored priority, never below -1 and non-negative for a present operator |
| Parsers.Parser.IsOperator | src/main/java/gmail/vladimir/JLSP/Parser/Parser.java:210-212 | an operator is neither a comma nor a delimiter and has a non-negative priority |
| Parsers.Parser.AddComma | src/main/java/gmail/vladimir/JLSP/Parser/Parser.java:330-335 | fails when the char is an operator or a delimiter, changing nothing; otherwise sets the flag and returns true exactly when it was newly set |
| Parsers.Parser.IsComma | src/main/java/gmail/vladimir/JLSP/Parser/Parser.java:351-353 | the comma flag, or a failure beyond the limit |
| Parsers.Parser.RemoveComma | src/main/java/gmail/vladimir/JLSP/Parser/Parser.java:370-374 | clears the flag and returns its prior value |
| Parsers.Parser.AddDelimiter | src/main/java/gmail/vladimir/JLSP/Parser/Parser.java:393-398 | fails when the char is an operator or a comma, changing nothing; otherwise sets the flag and returns true exactly when it was newly set |
| Parsers.Parser.IsDelimiter | src/main/java/gmail/vladimir/JLSP/Parser/Parser.java:416-418 | the delimiter flag, or a failure beyond the limit |
| Parsers.Parser.RemoveDelimiter | src/main/java/gmail/vladimir/JLSP/Parser/Parser.java:436-440 | clears the flag and returns its prior value |
| Parsers.Parser.RolesExclusive | src/main/java/gmail/vladimir/JLSP/Parser/Parser.java:1220-1237 | no char is ever two of operator, comma and delimiter |
| Parsers.Parser.AddFunction | src/main/java/gmail/vladimir/JLSP/Parser/Parser.java:493-501 | registers the implementation and returns the previous one; the prefix index gains the name only for a new id |
| Parsers.Parser.IsFunction | src/main/java/gmail/vladimir/JLSP/Parser/Parser.java:508-510 | true exactly for a registered id |
| Parsers.Parser.GetFunction | src/main/java/gmail/vladimir/JLSP/Parser/Parser.java:517-519 | the registered implementation, or none |
| Parsers.Parser.RemoveFunction | src/main/java/gmail/vladimir/JLSP/Parser/Parser.java:526-534 | removes the id and returns its implementation; the prefix index loses the name only when the id was present |
| Parsers.Parser.PrefixIndexAnswers | src/main/java/gmail/vladimir/JLSP/Parser/Parser.java:493-534 | the prefix index answers exactly "some registered id starts with this", and never for the empty prefix |
| Parsers.Parser.SetSkipEmptySpace | src/main/java/gmail/vladimir/JLSP/Parser/Parser.java:226-228 | only that option changes |
| Parsers.Parser.SetDefaultOperator | src/main/java/gmail/vladimir/JLSP/Parser/Parser.java:240-242 | only that option changes |
| Parsers.Parser.SetBetweenVariables | src/main/java/gmail/vladimir/JLSP/Parser/Parser.java:256-258 | only that option changes |
| Parsers.Parser.SetDefaultValue | src/main/java/gmail/vladimir/JLSP/Parser/Parser.java:310-312 | only that option changes |
| Parsers.Parser.Environment | src/main/java/gmail/vladimir/JLSP/Parser/Parser.java:1137-1150 | evaluation reads the parser's implementations, priorities, functions and default operator |
| Parsers.Parser.ResolvedPlaced | src/main/java/gmail/vladimir/JLSP/Parser/Parser.java:820-860 | resolving an entity changes only the bucket map and the last-entity fields of the scope |
| Parsers.Parser.ResolveAddition | src/main/java/gmail/vladimir/JLSP/Parser/Parser.java:820-860 | one of the three bucket rules applies; no literal or variable changes; a char beyond the limit fails |
| Parsers.Parser.ResolveSame | src/main/java/gmail/vladimir/JLSP/Parser/Parser.java:826-831 | equal priority appends the entity to the current bucket, and a `^` after `^` then groups that bucket's last two entries |
| Parsers.Parser.ResolveLower | src/main/java/gmail/vladimir/JLSP/Parser/Parser.java:834-840 | lower priority appends the entity to the lower bucket and lowers `lastOperationPriority` |
| Parsers.Parser.ResolveHigher | src/main/java/gmail/vladimir/JLSP/Parser/Parser.java:843-859 | higher priority moves the previous entity from the old bucket to the new one, then appends the new entity, and relabels the old bucket's first entry |
| Parsers.Parser.HigherFields | src/main/java/gmail/vladimir/JLSP/Parser/Parser.java:843-858 | the bucket moves of the higher rule, on the scope's fields |
| Parsers.Parser.HigherResolved | src/main/java/gmail/vladimir/JLSP/Parser/Parser.java:843-858 | the higher rule's new fields are a resolution of the entity |
| Parsers.Parser.Relabel | src/main/java/gmail/vladimir/JLSP/Parser/Parser.java:848-849 | the heap becomes `Relabelled` |
| Parsers.Parser.AttachHigher | src/main/java/gmail/vladimir/JLSP/Parser/Parser.java:851-858 | the new rank's bucket gains the previous entity and the new one, and the last-operation fields move on |
| Parsers.Parser.GroupAfterHigher | src/main/java/gmail/vladimir/JLSP/Parser/Parser.java:859 | `groupAddition` with op 2 changes nothing |
| Parsers.Parser.GroupAddition | src/main/java/gmail/vladimir/JLSP/Parser/Parser.java:868-896 | acts only for op 0 with `^` after `^`; then it is `GroupPower`; otherwise nothing changes |
| Parsers.Parser.GroupPower | src/main/java/gmail/vladimir/JLSP/Parser/Parser.java:872-895 | a bucket of fewer than 3 entries is left alone; otherwise its last two entries are replaced by their grouping, so it shrinks by exactly one |
| Parsers.Parser.PowerIntoFormula | src/main/java/gmail/vladimir/JLSP/Parser/Parser.java:882-886 | the heap becomes `GroupedIntoFormula`'s |
| Parsers.Parser.PowerOf | src/main/java/gmail/vladimir/JLSP/Parser/Parser.java:879-893 | a non-formula operand pair is always grouped into a new `^` formula; a trailing formula is extended instead |
| Parsers.Parser.GroupLastTwo | src/main/java/gmail/vladimir/JLSP/Parser/Parser.java:878-895 | the bucket is `Grouped`: its last two entries become one |
| Parsers.Parser.RegroupBucket | src/main/java/gmail/vladimir/JLSP/Parser/Parser.java:879-895 | the two removals and one add on the bucket give `Grouped` |
| Parsers.Parser.PreResolve | src/main/java/gmail/vladimir/JLSP/Parser/Parser.java:797-811 | the first entity of a scope goes into the priority-0 bucket; later ones are resolved; either way it is appended to `inOrder` |
| Parsers.Parser.Place | src/main/java/gmail/vladimir/JLSP/Parser/Parser.java:798-805 | the first-entity or the resolution branch; `inOrder` is untouched |
| Parsers.Parser.PlaceFirst | src/main/java/gmail/vladimir/JLSP/Parser/Parser.java:800-805 | the first entity sets the last-entity fields to priority 0 and goes into the priority-0 bucket |
| Parsers.Parser.Record | src/main/java/gmail/vladimir/JLSP/Parser/Parser.java:807-810 | the entity is appended to `inOrder`, and the scope is reset when asked |
| Parsers.Parser.AddStaticVariable | src/main/java/gmail/vladimir/JLSP/Parser/Parser.java:774-780 | with a pending literal, a new literal of the signed value under its operator (`-` becomes the default operator) is placed; without one the call fails as Java's unboxing would |
| Parsers.Parser.AddVariable | src/main/java/gmail/vladimir/JLSP/Parser/Parser.java:785-791 | a new variable under the between-variables operator after a non-zero literal (otherwise the pending or default operator) is placed and the scope reset |
| Parsers.Parser.FinishFormula | src/main/java/gmail/vladimir/JLSP/Parser/Parser.java:669-685 | a pending literal is flushed; the scope's lists become a new formula under the given or default symbol |
| Parsers.Parser.BuildFormula | src/main/java/gmail/vladimir/JLSP/Parser/Parser.java:673-684 | the new formula's lists are `inOrder`, the map joined without its last slot, and that slot |
| Parsers.Parser.SplitScope | src/main/java/gmail/vladimir/JLSP/Parser/Parser.java:673-678 | the last slot is detached as the lowest-priority list, and the remaining buckets are concatenated |
| Parsers.Parser.NestedOfScope | src/main/java/gmail/vladimir/JLSP/Parser/Parser.java:682 | a nested formula of the three lists under the given symbol |
| Parsers.Parser.RootOfScope | src/main/java/gmail/vladimir/JLSP/Parser/Parser.java:684 | a root formula of the three lists; an empty formula always succeeds |
| Parsers.Parser.AddFuncVariable | src/main/java/gmail/vladimir/JLSP/Parser/ParsingState.java:86-93 | the scope commits, finishes its formula, appends it to `funVars`, and starts over |
| Parsers.Parser.FinishArgument | src/main/java/gmail/vladimir/JLSP/Parser/ParsingState.java:88-92 | the finished argument is appended and the scope emptied |
| Parsers.Parser.AddState | src/main/java/gmail/vladimir/JLSP/Parser/Parser.java:643-661 | closing a scope places one new entity in the parent: a call of the parent's function name over the collected arguments, or a nested formula; `-` becomes the parent's sign or the default operator |
| Parsers.Parser.ScopeEntity | src/main/java/gmail/vladimir/JLSP/Parser/Parser.java:651-654 | a call of the name over exactly the arguments, or a finished nested formula |
| Parsers.Parser.PlaceScope | src/main/java/gmail/vladimir/JLSP/Parser/Parser.java:656-658 | the entity is appended to the parent's `inOrder`, resolved, and the parent reset |
| Parsers.Parser.NoteFunctionOperator | src/main/java/gmail/vladimir/JLSP/Parser/Parser.java:577-578 | at the start of a name, the operator before it is remembered: the char if it is an operator, else the between-variables operator |
| Parsers.Parser.ScanName | src/main/java/gmail/vladimir/JLSP/Parser/Parser.java:580-589 | unless the buffer is already a function name, the char extends it, and the buffer is kept only while it prefixes a registered name |
| Parsers.Parser.ExtendName | src/main/java/gmail/vladimir/JLSP/Parser/Parser.java:582-588 | the state becomes `NameStep` of the old |
| Parsers.Parser.NameKnown | src/main/java/gmail/vladimir/JLSP/Parser/Parser.java:583 | the prefix index answers whether the buffer prefixes a registered name |
| Parsers.Parser.OpenScope | src/main/java/gmail/vladimir/JLSP/Parser/Parser.java:591-612 | `(` after a non-function commits the scope and opens a plain one; after a function name it rolls back the name chars and opens an argument scope under the operator before the name |
| Parsers.Parser.OpenPlain | src/main/java/gmail/vladimir/JLSP/Parser/Parser.java:594-600 | commit, clear the name, and take the last char as the operator when it is one |
| Parsers.Parser.DumpPlain | src/main/java/gmail/vladimir/JLSP/Parser/Parser.java:595-596 | commit and clear the name |
| Parsers.Parser.OpenCall | src/main/java/gmail/vladimir/JLSP/Parser/Parser.java:601-604 | roll back the name chars and use the operator before the name |
| Parsers.Parser.CloseScope | src/main/java/gmail/vladimir/JLSP/Parser/Parser.java:616-624 | `)` adds the pending argument of a call scope, then places the scope's entity in the parent |
| Parsers.Parser.ProcessChar | src/main/java/gmail/vladimir/JLSP/Parser/Parser.java:691-769 | after an entity, an operator becomes pending and a comma (or a delimiter outside a call) fails as an invalid operation symbol; beyond the limit it fails; otherwise the char is read |
| Parsers.Parser.AfterEntity | src/main/java/gmail/vladimir/JLSP/Parser/Parser.java:692-712 | a variable char gets the between-variables operator; an operator becomes pending; a delimiter in a call adds an argument |
| Parsers.Parser.ReadChar | src/main/java/gmail/vladimir/JLSP/Parser/Parser.java:714-768 | a leading `-` toggles the sign; otherwise the literal starts (at the empty-operand value unless started) and the char is read |
| Parsers.Parser.ReadErrors | src/main/java/gmail/vladimir/JLSP/Parser/Parser.java:727-729 | reading a char fails only on a second decimal comma or an internal failure |
| Parsers.Parser.ReadRest | src/main/java/gmail/vladimir/JLSP/Parser/Parser.java:727-768 | a comma sets the decimal point (a second one fails); a delimiter in a call adds an argument; a digit extends the literal; an operator ends it; any other char is a variable |
| Parsers.Parser.OperatorAfter | src/main/java/gmail/vladimir/JLSP/Parser/Parser.java:743-749 | an operator flushes the literal (outside a call) and becomes pending, negating on `-` |
| Parsers.Parser.VariableAfter | src/main/java/gmail/vladimir/JLSP/Parser/Parser.java:752-756 | a non-zero literal is flushed, then the variable is added |
| Parsers.Parser.PopScope | src/main/java/gmail/vladimir/JLSP/Parser/Parser.java:643-647 | closing pops the innermost suspended scope |
| Parsers.Parser.ScanChar | src/main/java/gmail/vladimir/JLSP/Parser/Parser.java:573-627 | a skipped space changes nothing; `(` pushes a fresh scope, `)` pops one and fails exactly when none is open; any other char is processed in the current scope |
| Parsers.Parser.ScanPrelude | src/main/java/gmail/vladimir/JLSP/Parser/Parser.java:577-589 | the name bookkeeping keeps the scopes well formed |
| Parsers.Parser.ScanOpen | src/main/java/gmail/vladimir/JLSP/Parser/Parser.java:591-612 | `(` suspends the current scope and starts a fresh one |
| Parsers.Parser.ScanOther | src/main/java/gmail/vladimir/JLSP/Parser/Parser.java:627 | an ordinary char fails only as an invalid symbol, a double comma or an internal failure |
| Parsers.Parser.ParseFormula | src/main/java/gmail/vladimir/JLSP/Parser/Parser.java:559-634 | a success is a root formula under the default operator; a failure is a parse error; an unbalanced `)` always fails as `Unbalanced parenthesis` and that error means one; an empty (or all-space) input gives an empty formula |
| Parsers.Parser.Conclude | src/main/java/gmail/vladimir/JLSP/Parser/Parser.java:630-633 | open scopes are closed, then the root scope is finished as the root formula |
| Parsers.Parser.ScanAll | src/main/java/gmail/vladimir/JLSP/Parser/Parser.java:573-628 | the loop fails on an unbalanced prefix and otherwise leaves one scope per open parenthesis |
| Parsers.Parser.ScanNext | src/main/java/gmail/vladimir/JLSP/Parser/Parser.java:573-628 | one char keeps the stack depth equal to the open-parenthesis depth |
| Parsers.Parser.CloseAll | src/main/java/gmail/vladimir/JLSP/Parser/Parser.java:630-631 | scopes still open at end of input are closed into their parents, not rejected |
| Parsers.Parser.CloseOne | src/main/java/gmail/vladimir/JLSP/Parser/Parser.java:631 | one implicit close pops one scope |

## Left out

- The state pool (`statePool`, `getState`, `recycleState`, `Parser.java:1208-1218`): each scope gets a freshly allocated state. A recycled state is `finalFullReset` and gets a new bucket map, so a fresh one behaves the same.
- The `parseLogic` override hook and `acceptNull` (`Parser.java:560-563`): the hook calls foreign code and is null unless a caller installs one.
- The async evaluators (`naiveResultAsync`, `inOperationOrderResultAsync`): they are concurrency.
- Logging in `setVariable` and `getVariablesString`: these are console I/O and string formatting.
- Java `double` arithmetic: numbers are `real`. The `^` sign rules and the `Math` functions inside the built-in lambdas of `initDefaults` (`Parser.java:921-1121`) are not modelled. The constructor takes the operator and function implementations as parameters and registers them with the documented priorities.
- `Function.setRoot`: it calls a `Formula.setRoot` overload that does not exist, and `Function` is not a `NeedsRoot`, so formula construction never descends into function arguments. The model does the same.
- `changeLimit`: array resizing, with no effect on parsing beyond the new size.
- `ParserStatic.java` is not part of this model. It is a global-singleton wrapper, and `StaticVariable.java` is not part of this model either: a literal is `Entity.StaticVariable(value, symbol)`.
- The interfaces `OperatorCompute`, `FunctionCompute`, `NeedsRoot` and `ParseCompute`: they are function-typed parameters or entity kinds.
- Plain getters without logic (`getInOrder`, `getVariables`, `getRequiredVariables`, `getRoot`, `getVariableValues`, `getLastNaiveCacheResult`, `getInOrderCacheResult`, `shouldSkipEmptySpace`, `getDefaultOperator`, `getBetweenVariables`, `getDefaultValueBetweenEmptyOperators`, and the getters of the entity fields): they are field reads of the model's datatypes. `hashCode` is left out as well.
- The fuel bound: every walk through nested formulas reports `OutOfFuel` where the fuel ends. On an acyclic structure the parse gives the walks enough fuel. Java would overflow its stack on a cyclic one.
- The 16-bit counters of `TempList` (`size`, `tempSize`) and `TempMap` (`tempIndex`, `size`) are unbounded naturals. A list or map of more than 32767 entries would wrap in Java. The variable index is truncated with `Formulas.ShortValue`.
- The pre-function fields of `ParsingState` (`lastEntityBeforeFunc`, `lastOperationBeforeFunc`, `lastOperationPriorityBeforeFunc`) are written and never read, so `Fields` omits them.
- `func` in `ParsingState` is a flag: the parser only tests the stored implementation for null.
- TempMaps.TempMap.Put: on a failure the model leaves the map unchanged. In Java, `tempIndexes[tempIndex++] = key` advances `tempIndex` before the bounds check throws on a full journal, and an out-of-range key is journalled before `existsTemp[key]` throws. The exception ends the parse, so that partial state is never read.
- TempMaps.TempMap.GetOrAdd: a failure that comes from `put` leaves the map unchanged, for the same reason as `Put`.
- ParsingStates.ParsingState.ClearTemp: on a null-bucket failure the model leaves the whole state unchanged. Java has by then rolled back `inOrder` and part of the buckets, but the exception ends the parse, as with `Dump`.
- Parsers.Parser.constructor: it requires a limit above `'^'`. For a smaller `size`, Java's `new Parser(size)` throws `ArrayIndexOutOfBoundsException` from `initDefaults` while it writes the `^` slot. The model does not represent that failed construction.
- ParsingStates.ParsingState.Dump: on a null-bucket failure the model leaves the whole state unchanged. Java has by then committed `inOrder` and part of the buckets, but the exception ends the parse and that partial state is never read.
- TempMaps.TempMap.Valid: it keeps `tempIndex <= capacity` but does not claim that each key is journalled at most once. A key whose slot `getAndRemoveLast` nulled is journalled again by `getOrAdd`.
- TempLists.TempList.GetArray: it returns the live entries only. Java returns the backing array, whose cells from `size` on are stale or null. Every caller reads only the first `size()` cells.
- TempMaps.TempMap.IsEmpty: its contract states only that an empty map has no bucket. The converse fails: `clearLists` and `getAndRemoveLast` leave `size` as it was.
- Evaluation.EntityValue, Evaluation.FunctionValue, Evaluation.FoldFrom: their own contracts state only that evaluation changes nothing but formula caches, plus their error cases. The value they compute is pinned down by the methods proved equal to them, and by `FoldOfNumbers`, `FunctionOfNumbers` and `NaiveCacheHit`.
- Evaluation.FunctionValue: an implementation reads either a fixed prefix of its arguments or all of them, each once and from left to right. A Java lambda may instead read an argument twice, as `asinh`, `acosh` and `atanh` do, or read in another order. For literals and variables this gives the same value. For nested formulas it can differ in which caches are written and in what order, and the model does not capture that.
- Parsers.Parser.ResolveHigher: it relabels the old bucket's first entry after computing the new bucket map. Java does it in between, and the effect is the same, since the map holds references.
