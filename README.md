# Mealy/Moore automata converter, modelled in Dafny

The program reads a Mealy or a Moore machine from a CSV table, converts it
into the other kind of machine, and writes the result back as CSV. This
project models the core of that program:

- the two automata classes and the text their `ExportToCsv` writes
  (`Automata/MealyAutomata.h`, `Automata/MooreAutomata.h`);
- the `Transition` record and the order that `std::set` and `std::map` use
  for it (`Automata/IAutomata.h`);
- the Mealy-to-Moore converter (`Converter/MealyToMooreConverter.h`):
  - the breadth-first walk for the reachable states;
  - the set of unique transitions;
  - the grouping of the possible transitions by reached state;
  - the naming `q0`, `q1`, … and the sort of the new states by name;
  - the new transition table;
- the Moore-to-Mealy converter (`Converter/MooreToMealyConverter.h`):
  - the state list;
  - the state-to-output map;
  - the relabelling of every destination.

## Dafny modules

| file | module | what it holds |
|---|---|---|
| `Transitions.dfy` | `Transitions` | `Transition`; `StringLess` (`std::string`'s `<`); `Less` (`Transition::operator<`); `Find` (`std::find` + `std::distance`); proofs that both orders are strict total orders |
| `Outcome.dfy` | `Outcome` | `Result`, with the single error `InvalidState` (the `std::range_error` of `GetIndexOfStringInVector`) |
| `CsvText.dfy` | `CsvText` | the `;`-field and line text both exports write; `SplitLines` to read a text back as lines |
| `MealyAutomata.dfy` | `Mealy` | class `MealyAutomata`; `Csv`, the exported text |
| `MooreAutomata.dfy` | `Moore` | class `MooreAutomata`; `Csv`, the exported text |
| `Reachability.dfy` | `Reachability` | `Explore` / `PossibleStates`, the worklist loop as a function; proof that it lists exactly the states reachable from the first Mealy state, or fails exactly when one of them is not a Mealy state |
| `TransitionSets.dfy` | `TransitionSets` | `std::set<Transition>` as a strictly sorted sequence (`Insert` is `emplace`); `UniqueTransitions`; `Group`, one group of the inner loop with its `break`; `PossibleTransitions` |
| `StateNames.dfy` | `StateNames` | `Decimal` (`std::to_string`); `StateName` (`'q' + index`); `SortByName`, the `std::sort` by name |
| `MealyToMooreConverter.dfy` | `MealyToMoore` | class `MealyToMooreConverter`, with its private static functions as static methods |
| `MooreToMealyConverter.dfy` | `MooreToMealy` | class `MooreToMealyConverter`, with its private static functions as static methods |

The loops of the source are `method`s with loop invariants. Each method is
proved against a specification function:

- `UniqueTransitions`, `PossibleStates`, `Group` and `PossibleTransitions`,
  `NamedStates`, `MapOrderStates` and `SortByName` for the Mealy-to-Moore
  direction;
- `OutputOf` and `Relabel` for the Moore-to-Mealy direction;
- `Csv` for each export.

Lemmas then prove what those functions mean:

- the walk finds exactly the reachable states;
- the unique transitions are exactly the table's transitions, each once,
  in ascending order;
- the sort yields a sorted permutation, and, since the new state names are
  distinct, the only one;
- each export reads back line by line as the expected rows. For the Moore
  export this holds when row i is labelled with input symbol i and the
  labels are distinct. An input symbol that labels no row is written with
  nothing after it, so the next symbol continues its line.

Both automata classes are immutable after construction in the source, so
their fields are `const`.

### Behaviour of the code worth noting

- **De-duplication.** Transitions are de-duplicated over the whole table
  through a `std::set`, so they come out in `Transition::operator<` order,
  not in the order first seen.
  - The possible transitions follow the breadth-first order of their
    destinations, and within one destination ascend by output symbol
    (`TransitionSets.PossibleTransitionsOrder`).
  - A transition whose destination is never reached gets no Moore state.
- **State order.** The Moore state list is sorted by name as a string, so
  `q10` comes before `q2` (`StateNames.NameOrderIsNotIndexOrder`).
  Before the sort the list follows the `std::map` of new names, that is
  ascending `Transition::operator<` order. Because the names are distinct,
  the sorted list does not depend on that order
  (`MealyToMoore.SortedStatesAgree`).
- **Moore table columns.**
  - The Moore table has one column per possible transition, in the order of
    the possible transitions, not in the sorted state order.
  - Row `a`, column `k` holds the name of the transition that Mealy row `a`
    takes from the destination of the `k`-th possible transition
    (`MealyToMoore.IsMooreRow`).
- **Input checks.**
  - The converter does not check that rows have one transition per state.
    The model states this as the precondition `Covers`, since otherwise
    `row.second[index]` reads outside the row.
  - A reachable name that is not a Mealy state makes `GetIndexOfStringInVector`
    throw. The model returns `Err(InvalidState)` exactly then.
- **Moore to Mealy.**
  - The Mealy states keep their Moore names. Only the destinations are
    renamed, by replacing their first character with `F`.
  - A destination that names no Moore state gets the output `""`, which
    `std::map::operator[]` default-constructs.
  - A Moore state listed twice contributes the output of its last entry.

## Model

| member | source | states |
|---|---|---|
| `Transitions.Find` | Converter/MealyToMooreConverter.h:50-51 | the result is at most the length, and equals the length exactly when the value is absent; otherwise it is a position holding the value |
| `Transitions.FindIsFirst` | Converter/MealyToMooreConverter.h:134 | no position before the one found holds the value: `std::find` returns the first occurrence |
| `Transitions.FindIsAt` | Converter/MealyToMooreConverter.h:134-138 | the first position holding the value is the one returned |
| `Transitions.StringLessIrreflexive` | Automata/IAutomata.h:19 | no string is less than itself under `std::string`'s `<` |
| `Transitions.StringLessTransitive` | Automata/IAutomata.h:19 | the string order is transitive |
| `Transitions.StringLessTotal` | Automata/IAutomata.h:19 | any two strings are equal or ordered one way or the other |
| `Transitions.StringLessAsymmetric` | Automata/IAutomata.h:21 | two strings are never each less than the other |
| `Transitions.LessIrreflexive` | Automata/IAutomata.h:15-22 | no transition is less than itself |
| `Transitions.LessTransitive` | Automata/IAutomata.h:15-22 | the transition order is transitive |
| `Transitions.EquivalentIffEqual` | Automata/IAutomata.h:15-22 | two transitions are equivalent for `std::set` (neither is less) exactly when both fields are equal |
| `Transitions.LessAsymmetric` | Automata/IAutomata.h:15-22 | two transitions are never each less than the other |
| `Transitions.DestinationsContiguous` | Automata/IAutomata.h:15-22 | in a sorted set, transitions that share a destination are adjacent |
| `Transitions.StrictlySortedDistinct` | Converter/MealyToMooreConverter.h:144-156 | a sorted set holds no transition twice |
| `Transitions.StrictlySortedUnique` | Converter/MealyToMooreConverter.h:144-156 | two sorted sets with the same elements are the same sequence: iteration order is determined by the contents |
| `CsvText.Fields` | Automata/MealyAutomata.h:33-36 | fields without newlines give a text without newlines |
| `CsvText.JoinLines` | Automata/MealyAutomata.h:48 | a non-empty joined text ends in a newline |
| `CsvText.SplitJoinLines` | Automata/MealyAutomata.h:37-48 | lines without newlines, each written with a newline, read back as the same lines |
| `CsvText.SplitLinesAppend` | Automata/MooreAutomata.h:45-49 | a newline-terminated text reads back line by line independently of what follows |
| `Mealy.MealyAutomata.constructor` | Automata/MealyAutomata.h:19-22 | the getters return the states and the table it was given |
| `Mealy.MealyAutomata.GetInputSymbols` | Automata/MealyAutomata.h:62-72 | one input symbol per row, the row's label, in row order |
| `Mealy.MealyAutomata.ExportToCsv` | Automata/MealyAutomata.h:24-50 | the written text is `Csv(states, table)`: the header, then one line per row |
| `Mealy.CsvLayout` | Automata/MealyAutomata.h:33-49 | the export has one line more than the table has rows; line 0 is `;state` per state; line r+1 is row r's symbol followed by `;next/output` per transition |
| `Mealy.TransitionFieldsOnOneLine` | Automata/MealyAutomata.h:43-46 | a row's transitions without newlines are written on one line |
| `Mealy.RowsTextLines` | Automata/MealyAutomata.h:39-49 | the rows' text is the row lines, each followed by a newline |
| `Moore.MooreAutomata.constructor` | Automata/MooreAutomata.h:21-29 | the getters return the input symbols, states and table it was given |
| `Moore.MooreAutomata.GetOutputSymbols` | Automata/MooreAutomata.h:76-79 | the output symbol list is never filled in, so it is always empty |
| `Moore.MooreAutomata.ExportToCsv` | Automata/MooreAutomata.h:31-69 | the written text is `Csv(inputs, statesInfo, table)`: outputs line, states line, then per input symbol the symbol and its matching rows |
| `Moore.UnmatchedSymbolWritesNothing` | Automata/MooreAutomata.h:51-66 | an input symbol that labels no row is written with nothing after it, not even a newline |
| `Moore.UniqueRowWritesOneLine` | Automata/MooreAutomata.h:55-64 | a symbol labelling exactly one row is followed by that row's `;dest` fields and one newline |
| `Moore.BlocksAreLines` | Automata/MooreAutomata.h:51-66 | when row i is labelled with input i and labels are distinct, the input blocks are one line per input |
| `Moore.CsvLayout` | Automata/MooreAutomata.h:39-66 | under the same conditions the export reads back as the outputs line, the states line, then per input its symbol and `;dest` per destination |
| `Reachability.AddSuccessors` | Converter/MealyToMooreConverter.h:91-99 | the inner loop only appends: the old list is a prefix of the new one |
| `Reachability.AddSuccessorsElems` | Converter/MealyToMooreConverter.h:91-99 | after the inner loop the list holds the old entries plus every destination in the column |
| `Reachability.AddSuccessorsNew` | Converter/MealyToMooreConverter.h:94-98 | every appended entry was not listed before and is appended once |
| `Reachability.UnseenShrinks` | Converter/MealyToMooreConverter.h:86-100 | either the inner loop appends nothing, or the set of table destinations not yet listed shrinks: the walk terminates |
| `Reachability.AppendNewDistinct` | Converter/MealyToMooreConverter.h:94-97 | appending only unlisted states keeps the list free of duplicates |
| `Reachability.StepClosed` | Converter/MealyToMooreConverter.h:88-99 | after processing a state, all its successors are listed |
| `Reachability.StepFromEarlier` | Converter/MealyToMooreConverter.h:88-99 | every entry the step appends is a successor of a state already processed |
| `Reachability.ExploreStep` | Converter/MealyToMooreConverter.h:86-100 | one round of the loop preserves the loop invariant |
| `Reachability.ListedReachable` | Converter/MealyToMooreConverter.h:80-103 | every listed state is reachable from the first Mealy state |
| `Reachability.ReachableListed` | Converter/MealyToMooreConverter.h:80-103 | a list that starts at the first state and is closed under successors contains every reachable state |
| `Reachability.ExploreOutcome` | Converter/MealyToMooreConverter.h:86-102 | a successful walk ends with the loop invariant holding for every entry processed; a failed one means some reachable name is not a Mealy state |
| `Reachability.PossibleStatesFailure` | Converter/MealyToMooreConverter.h:89 | the walk fails exactly when some reachable name is not a Mealy state |
| `Reachability.PossibleStatesShape` | Converter/MealyToMooreConverter.h:80-103 | on success the list starts with the first Mealy state, has no duplicates and holds only Mealy states |
| `Reachability.PossibleStatesAreReachable` | Converter/MealyToMooreConverter.h:80-103 | on success a name is listed exactly when it is reachable |
| `Reachability.PossibleStatesClosed` | Converter/MealyToMooreConverter.h:91-99 | on success every successor of a listed state is listed |
| `Reachability.PossibleStatesFromEarlier` | Converter/MealyToMooreConverter.h:91-99 | on success every entry after the first is the destination of some row's transition from an earlier entry |
| `TransitionSets.InsertSpec` | Converter/MealyToMooreConverter.h:151 | `emplace` into a sorted set keeps it sorted and adds exactly the new element |
| `TransitionSets.InsertAllSpec` | Converter/MealyToMooreConverter.h:149-152 | inserting a row's transitions keeps the set sorted and adds exactly those transitions |
| `TransitionSets.UniqueTransitionsSpec` | Converter/MealyToMooreConverter.h:144-156 | the unique transitions are sorted and are exactly the transitions occurring anywhere in the table |
| `TransitionSets.TableTransitionsMembers` | Converter/MealyToMooreConverter.h:147-153 | a transition is in the table exactly when some row holds it in some column, reached or not |
| `TransitionSets.GroupMembers` | Converter/MealyToMooreConverter.h:115-126 | one group holds exactly the unique transitions to the given state |
| `TransitionSets.GroupSorted` | Converter/MealyToMooreConverter.h:115-126 | a group keeps the set's order: ascending by output symbol |
| `TransitionSets.GroupUnchanged` | Converter/MealyToMooreConverter.h:117-121 | transitions to other states add nothing to the group |
| `TransitionSets.GroupStopsAtBreak` | Converter/MealyToMooreConverter.h:122-125 | the early `break` loses nothing: no later transition goes to the state |
| `TransitionSets.PossibleTransitionsMembers` | Converter/MealyToMooreConverter.h:105-130 | a transition is possible exactly when it is unique and its destination is reachable |
| `TransitionSets.PossibleTransitionsOrder` | Converter/MealyToMooreConverter.h:113-127 | possible transitions are ordered by the breadth-first position of their destination, then by output symbol |
| `TransitionSets.PossibleTransitionsDistinct` | Converter/MealyToMooreConverter.h:105-130 | no possible transition is listed twice |
| `StateNames.Decimal` | Converter/MealyToMooreConverter.h:74 | the decimal text of an index is never empty |
| `StateNames.DecimalDigits` | Converter/MealyToMooreConverter.h:74 | it consists of digits, and starts with `0` only for zero |
| `StateNames.DecimalInjective` | Converter/MealyToMooreConverter.h:74 | different indices have different decimal texts |
| `StateNames.StateNamesDistinct` | Converter/MealyToMooreConverter.h:72-75 | every new name starts with `q`, and two names are equal exactly when their indices are |
| `StateNames.NameOrderIsNotIndexOrder` | Converter/MealyToMooreConverter.h:35-38 | sorting by name puts `q10` before `q2` |
| `StateNames.InsertByNameSpec` | Converter/MealyToMooreConverter.h:35-38 | inserting into a name-sorted list keeps it sorted and adds exactly the new entry |
| `StateNames.SortByNameSpec` | Converter/MealyToMooreConverter.h:35-38 | the sort yields a list sorted by name that is a permutation of its input |
| `StateNames.SortedByNameUnique` | Converter/MealyToMooreConverter.h:29-38 | with distinct names, two name-sorted permutations of the same entries are equal: any correct sort gives the same result, whatever the order before it |
| `MealyToMoore.MealyToMooreConverter.constructor` | Converter/MealyToMooreConverter.h:16-18 | the converter holds the Mealy machine it was given |
| `MealyToMoore.MealyToMooreConverter.GetMooreAutomata` | Converter/MealyToMooreConverter.h:20-66 | fails exactly when the walk fails; otherwise the inputs are the Mealy row labels, the states are exactly `SortByName` of the possible transitions named by position, and each row follows `IsMooreRow` |
| `MealyToMoore.MealyToMooreConverter.BuildMooreAutomata` | Converter/MealyToMooreConverter.h:27-65 | the new machine has the given inputs, the states `SortByName(NamedStates(transitions))`, and one converted row per Mealy row |
| `MealyToMoore.MealyToMooreConverter.GetMooreStatesInfo` | Converter/MealyToMooreConverter.h:29-33 | the unsorted state list follows the map of new names in its key order (ascending `Transition::operator<`), pairing each name with its output symbol; it is a permutation of the possible transitions named by position |
| `MealyToMoore.MealyToMooreConverter.GetMooreRow` | Converter/MealyToMooreConverter.h:41-60 | column k holds the name of the transition the row takes from the k-th possible transition's destination |
| `MealyToMoore.MealyToMooreConverter.GetNewStateNamesFromTransitions` | Converter/MealyToMooreConverter.h:68-78 | the map has one key per transition, and the last position of a transition gives its name; its keys, in the order the map holds them, are strictly ascending |
| `MealyToMoore.MealyToMooreConverter.GetAllPossibleState` | Converter/MealyToMooreConverter.h:80-103 | the result is the walk `PossibleStates`: it fails exactly when a reachable name is not a Mealy state, and otherwise lists exactly the reachable states |
| `MealyToMoore.MealyToMooreConverter.AppendSuccessors` | Converter/MealyToMooreConverter.h:91-99 | the inner loop computes `AddSuccessors`, and its set mirrors the list |
| `MealyToMoore.MealyToMooreConverter.GetUniquePossibleTransitions` | Converter/MealyToMooreConverter.h:105-130 | fails exactly when the walk fails; otherwise it returns the groups of the reachable states in walk order |
| `MealyToMoore.MealyToMooreConverter.GetTransitionsTo` | Converter/MealyToMooreConverter.h:115-126 | the inner loop with its `break` collects exactly `Group` of the state |
| `MealyToMoore.MealyToMooreConverter.GetIndexOfStringInVector` | Converter/MealyToMooreConverter.h:132-142 | succeeds exactly when the name is a state, with the index of its first occurrence; `InvalidState` otherwise |
| `MealyToMoore.MealyToMooreConverter.GetUniqueTransitions` | Converter/MealyToMooreConverter.h:144-156 | the set is sorted and holds exactly the table's transitions |
| `MealyToMoore.PossibleDistinct` | Converter/MealyToMooreConverter.h:105-130 | on success the possible transitions are distinct and each leads to a Mealy state |
| `MealyToMoore.PossibleLookups` | Converter/MealyToMooreConverter.h:46-55 | the column index is inside every row, and the transition read there is a possible one |
| `MealyToMoore.NamedStatesDistinct` | Converter/MealyToMooreConverter.h:72-75 | the new state names are pairwise different |
| `MealyToMoore.MapOrderPermutation` | Converter/MealyToMooreConverter.h:29-33 | listing the named states in the map's key order, rather than in possible-transition order, only reorders them |
| `MealyToMoore.SortedStatesAgree` | Converter/MealyToMooreConverter.h:29-38 | any two orders of the named states sort to the same list: with distinct names the sort has no ties |
| `StateNames.DistinctNamesPermutation` | Converter/MealyToMooreConverter.h:35-38 | reordering a list with distinct names keeps the names distinct |
| `MealyToMoore.NamedByPosition` | Converter/MealyToMooreConverter.h:72-75 | with distinct transitions each is named after its own position |
| `MealyToMoore.LookupSucceeds` | Converter/MealyToMooreConverter.h:53-55 | the `.at` lookup of a transition's new name never fails |
| `MooreToMealy.Relabel` | Converter/MooreToMealyConverter.h:61 | same length, first character `F`, the rest unchanged |
| `MooreToMealy.MooreToMealyConverter.constructor` | Converter/MooreToMealyConverter.h:15-17 | the converter holds the Moore machine it was given |
| `MooreToMealy.MooreToMealyConverter.GetMealyAutomata` | Converter/MooreToMealyConverter.h:19-31 | the Mealy states are the Moore state names in order; each row follows `IsMealyRow` |
| `MooreToMealy.MooreToMealyConverter.GetMealyStates` | Converter/MooreToMealyConverter.h:34-43 | one state per statesInfo entry, its name, in order |
| `MooreToMealy.MooreToMealyConverter.GetMealyTransitionTable` | Converter/MooreToMealyConverter.h:45-71 | one row per Moore row, same symbol; each destination relabelled and paired with its output (`""` when it is not a Moore state) |
| `MooreToMealy.MooreToMealyConverter.GetStateToOutputSymbolMap` | Converter/MooreToMealyConverter.h:73-82 | the keys are the state names; each maps to the output of its last entry |
| `MooreToMealy.OutputOfMissing` | Converter/MooreToMealyConverter.h:60 | a destination that names no Moore state gets the empty output |
| `MooreToMealy.OutputOfLast` | Converter/MooreToMealyConverter.h:76-79 | a name gets the output of its last entry: later duplicates overwrite earlier ones |
| `MooreToMealy.OutputIsDestinationOutput` | Converter/MooreToMealyConverter.h:58-65 | with distinct state names each Mealy transition emits exactly the Moore output of the state it leads to, and leads to its relabelled name |
| `MooreToMealy.RelabelProperties` | Converter/MooreToMealyConverter.h:61 | relabelling is idempotent; two destinations get the same new name exactly when they agree after the first character |
| `MooreToMealy.RelabelledNotAState` | Converter/MooreToMealyConverter.h:27-28 | when no Moore state name starts with `F`, no new destination is among the Mealy states |

## Left out

- Opening the output file and the exceptions thrown when it cannot be opened (`ExportToCsv` in both automata classes). The export is modelled as the text it writes; `std::endl` flushing is not modelled.
- `main.cpp`, `ArgumentsParser.h` and the CSV readers: command-line handling and input parsing. The CSV readers (`MealyController`, `MooreController`) are not part of this model.
- `std::unique_ptr` ownership and moves. Machines are plain object references; both automata classes are immutable once built.
- `std::sort` sorts in place. The model sorts with the functional insertion sort `SortByName`, whose result is proved sorted and a permutation.
- The naming counter is an `unsigned` (32 bits). Its wrap-around after 2^32 names is not modelled; the index is unbounded.
- Character signedness and multibyte text. Strings are sequences of `char`, compared by code point.
- `MealyToMoore.MealyToMooreConverter.GetMooreAutomata`: the precondition `Covers` asks every row to be as long as the state list. The source needs this only for the columns of states it actually reaches.
- `MooreToMealy.MooreToMealyConverter.GetMealyTransitionTable`: `operator[]` also inserts the missing key into the map. The model does not track that insertion, which does not change any result.
- The source functions are split into helper methods in the model:
  - `BuildMooreAutomata`, `GetMooreStatesInfo` and `GetMooreRow` divide up `GetMooreAutomata`;
  - `AppendSuccessors` is the inner loop of `GetAllPossibleState`;
  - `GetTransitionsTo` is the inner loop of `GetUniquePossibleTransitions`.
- The input and output symbol vectors that `GetMealyAutomata` fetches are read but never used, as in the source.
- `MooreToMealy.MooreToMealyConverter.GetMealyTransitionTable` requires every destination to be non-empty. Replacing the first character of an empty string is undefined behaviour in the source.
