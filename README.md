# cp_solver in Dafny

A model of the engine of `cp_solver`, a small finite-domain constraint
satisfaction solver. It has five parts.

- **Variables.** Each one holds an append-only list of values, a visibility
  mask over them and an optional assigned value.
- **Iterators.** These walk a snapshot of a variable's mask.
- **Constraints.** There are two kinds, `DifferentConstraint` and
  `FunctionConstraint`. Both support an exhaustive feasibility test and
  forward checking, which hides failing values and logs them.
- **The CSP container.** It registers variables and constraints, and keeps
  for each variable the list of constraints that involve it.
- **Search.** There are two propagators, `NoPropagation` and `ForwardCheck`.
  `BacktrackSearch` is the driver: it picks the unassigned variable with
  the smallest domain, tries its visible values in order, propagates, and
  undoes the propagator's log when a value causes a domain wipeout.

Variables are identified by their index in the CSP. The object-keyed
dictionary of the source becomes a map from indices.

The model works in two layers.

- **Values.** `Domain` is a datatype holding `values`, `visible` and
  `assignment`. A `seq<Domain>` is the state of all variables. The
  functions of modules `Domains`, `Constraints`, `Propagators` and
  `SearchModel` say what each operation does to that state.
- **Objects.** The source's objects are classes that change in place:
  `Variable`, `DomainIterator`, `DomainEnumerator`, `CSP` and
  `BacktrackSearch`. Each of their methods is proved to take the state
  (`State()`, `States()`) to the matching function of the value layer.

The lemmas about the value layer then carry the promised properties. Those
properties are:

- the prune/unprune round trip;
- "only this variable's mask changes";
- wipeout if and only if the domain is empty;
- the forward-checking log lists exactly what was hidden, in order;
- the undo restores the state when every domain is `range(n)`;
- the search terminates;
- every solution the search returns with `ForwardCheck` satisfies every
  constraint, and so every returned n-queens placement is free of
  attacks.

Files:

| file | contents |
|---|---|
| `wrappers.dfy` | `Option` |
| `domains.dfy` | `Domain` value and its lemmas (cp_solver/base.py `Variable`) |
| `variables.dfy` | `Variable`, `DomainIterator`, `DomainEnumerator` classes |
| `constraints.dfy` | constraints, `unassigned`, `check_feasible`, the forward-check specification |
| `checking.dfy` | `forward_check` as methods over the variable objects |
| `csp.dfy` | the `CSP` class |
| `propagators.dfy` | `NoPropagation`, `ForwardCheck` |
| `searchmodel.dfy` | the search as functions over `seq<Domain>` |
| `search.dfy` | `get_min_domain_variable`, `get_value_in_domain_order`, the `BacktrackSearch` class |
| `soundness.dfy` | solutions found with `ForwardCheck` satisfy every constraint |
| `queens.dfy` | the n-queens encoding of examples/queens.py and its soundness |

## Model

| member | source | states |
|---|---|---|
| Domains.FirstIndex | cp_solver/base.py:55 | `list.index`: None exactly when the value is absent, otherwise the first position holding it |
| Domains.FreshDomain | cp_solver/base.py:16-22 | a fresh variable is valid and unassigned, has domain size `len(values)`, iterates exactly `values` in order and enumerates `(i, values[i])` |
| Domains.AddValueAppends | cp_solver/base.py:24-26 | `add_value` grows the domain size by one and appends the value at the end of the iteration |
| Domains.PruneAtRoundTrip | cp_solver/base.py:68-70 | hiding then re-setting position `i` gives back the same variable; hiding a visible position lowers the size by one; unpruning a hidden one raises it by one |
| Domains.PruneAtHidesOne | cp_solver/base.py:68-70 | hiding position `i` removes exactly `i` from the visible positions and keeps every other |
| Domains.PruneByValue | cp_solver/base.py:65-66 | `prune(v)` fails exactly when `v` is absent, and otherwise acts on the first position holding `v` |
| Domains.RestoreShowsAll | cp_solver/base.py:40-42 | `restore_domain` shows every position and keeps the values and the assignment |
| Domains.AssignOverridesMask | cp_solver/base.py:28-63 | while assigned: size 1, iteration `[v]`, `in_domain(x)` iff `x == v`, `in_domain_index(i)` iff `values[i] == v`; mask untouched; unassigning gives back the unassigned state |
| Domains.IterationSpec | cp_solver/base.py:73-77 | an unassigned variable iterates the values at its visible positions, in increasing position order, and there are domain-size many |
| Domains.SizeIsIterationLength | cp_solver/base.py:44-48 | `domain_size` is the number of values iteration yields |
| Domains.EnumerationSpec | cp_solver/base.py:79-83 | unassigned: enumerates `(i, values[i])` over visible `i` in order; assigned: one pair `(first index of v, v)`, or ValueError when `v` is not among the values |
| Domains.InDomainSound | cp_solver/base.py:51-58 | `in_domain(v)` implies `v` is iterated; the converse holds when the values have no repeats |
| Domains.PositionsSpec | cp_solver/base.py:100-107 | the positions an iterator stops at are exactly the visible ones, strictly increasing, as many as the true mask entries |
| Domains.YieldIsPositions | cp_solver/base.py:99-107 | an iterator yields the values at those positions, in order |
| Domains.EnumIsPositions | cp_solver/base.py:111-120 | an enumerator yields `(position, value)` for those positions, in order |
| Domains.YieldAppend | cp_solver/base.py:24-26 | appending a visible value appends it to what iteration yields |
| Domains.CountTrueUpdate | cp_solver/base.py:44-48 | changing one mask entry changes the domain size by the difference of the two entries |
| Variables.Variable.constructor | cp_solver/base.py:16-22 | the new object's state is the fresh domain over the given values |
| Variables.Variable.AddValue | cp_solver/base.py:24-26 | the state becomes the old state with the value appended and visible |
| Variables.Variable.Assign | cp_solver/base.py:28-29 | only the assignment changes, to the value |
| Variables.Variable.Unassign | cp_solver/base.py:31-32 | only the assignment changes, to none |
| Variables.Variable.RestoreDomain | cp_solver/base.py:40-42 | the loop makes the mask all true and keeps everything else |
| Variables.Variable.Prune | cp_solver/base.py:65-66 | found iff the value is present; then the first position holding it gets the new mask entry; otherwise nothing changes (ValueError) |
| Variables.Variable.PruneAtIndex | cp_solver/base.py:68-70 | only mask entry `i` changes, to `unprune` |
| Variables.Variable.Iter | cp_solver/base.py:73-77 | a fresh iterator whose remaining values are the variable's iteration |
| Variables.Variable.Enumerate | cp_solver/base.py:79-83 | a fresh enumerator whose remaining pairs are the variable's enumeration; none where `index` raises |
| Variables.DomainIterator.constructor | cp_solver/base.py:87-94 | the iterator keeps its own copy of values and mask, starting at position 0 |
| Variables.DomainIterator.Next | cp_solver/base.py:99-107 | yields the first remaining value and drops it, or stops when none remain |
| Variables.DomainEnumerator.constructor | cp_solver/base.py:87-94 | as the iterator's constructor |
| Variables.DomainEnumerator.Next | cp_solver/base.py:111-120 | yields the first remaining `(position, value)` and drops it, or stops |
| Variables.NestedIteration | tests/test_base.py:32-44 | two nested loops over one variable, each with its own iterator, yield the full cross product of its visible values in loop order |
| Variables.InnerLoop | tests/test_base.py:39-40 | the inner loop pairs the outer value with every visible value |
| Variables.IterateWhilePruning | cp_solver/base.py:73-95 | a loop that prunes each value of a variable as it yields it still visits exactly the values visible when the loop started, in order: the iterator's mask is a copy, so pruning mid-iteration does not perturb it |
| Variables.CrossMembers | tests/test_base.py:42-44 | a pair is in the cross product iff each component is among the values |
| Constraints.FilterUnassigned | cp_solver/base.py:142-148 | the kept scope entries are in range and unassigned, and no more than the scope |
| Constraints.NoneUnassigned | cp_solver/base.py:142-148 | `unassigned()` is empty iff every scope variable is assigned |
| Constraints.OneUnassigned | cp_solver/base.py:142-148 | when exactly one scope entry is unassigned, its position is found and every other entry is assigned |
| Constraints.FirstNone | cp_solver/base.py:180 | `values.index(None)`: the first slot without a value, or none when all have one |
| Constraints.OneUnassignedSlot | cp_solver/base.py:178-180 | with one unassigned variable, the first empty slot exists and is that variable's slot |
| Constraints.SweepSnoc | cp_solver/base.py:183-187 | one more enumerated pair hides its position and logs `(u, i)` exactly when the test fails on it |
| Constraints.MaskHidesFailing | cp_solver/base.py:183-187 | after the sweep, a position is visible iff it was and every enumerated value at it passed the test |
| Constraints.LogSound | cp_solver/base.py:186-187 | every logged entry names the swept variable and a position whose value failed |
| Constraints.LogComplete | cp_solver/base.py:186-187 | every enumerated failing position is logged |
| Constraints.LogSorted | cp_solver/base.py:183-187 | the log is in strictly increasing position order when the enumeration is |
| Constraints.EnumMask | cp_solver/base.py:183-187 | sweeping the enumeration leaves visible exactly the visible positions whose value passes |
| Constraints.EnumLogSound | cp_solver/base.py:183-187 | every log entry names a visible position of the swept variable whose value fails; strictly increasing positions |
| Constraints.EnumLogComplete | cp_solver/base.py:183-187 | every visible failing position is logged |
| Constraints.ForwardCheckPrunes | cp_solver/base.py:178-190 | one unassigned variable `u`: only `u`'s mask changes; it keeps exactly the visible values that pass; the log is exactly the hidden positions in increasing order; wipeout iff `u`'s size is 0 |
| Constraints.ForwardCheckFrame | cp_solver/base.py:170-190 | forward checking only hides, and its log names exactly what it hid; with zero or several unassigned it is `(NO_DWO, [])` and changes nothing |
| Constraints.ForwardCheckValid | cp_solver/base.py:170-190 | the result keeps every domain well formed and the number of variables |
| Constraints.ForwardCheckKeepsPassing | cp_solver/base.py:178-190 | after a forward check the same variable is the only unassigned one in the scope, and every value it still shows passes the test |
| Constraints.ForwardCheckStable | cp_solver/base.py:183-187 | when every visible value already passes, nothing is hidden or logged |
| Constraints.ForwardCheckIdempotent | cp_solver/base.py:170-190 | a second call on the result hides nothing, logs nothing and gives the same wipeout flag |
| Constraints.SameAssignmentsSameFilter | cp_solver/base.py:142-148 | `unassigned()` depends only on the assignments |
| Constraints.ProductMembership | cp_solver/base.py:152 | `itertools.product`: a tuple is produced iff each component comes from its column |
| Constraints.AnyPassesSpec | cp_solver/base.py:152-155 | the loop returns True iff some produced tuple passes |
| Constraints.CheckFeasibleSpec | cp_solver/base.py:150-155 | `check_feasible` iff some tuple drawn from the scope variables' current iterations passes the test |
| Constraints.CheckFeasibleAssigned | cp_solver/base.py:150-155 | with the whole scope assigned, `check_feasible` iff the test holds on the assigned values |
| Checking.Unassigned | cp_solver/base.py:142-148 | the loop returns the unassigned scope variables in scope order |
| Checking.ForwardCheck | cp_solver/base.py:170-190 | the variables' new states, the flag and the log are exactly the forward-check specification of the old states |
| Checking.ForwardCheckOne | cp_solver/base.py:178-190 | the same, for the case of one unassigned variable |
| Checking.AssignedSlots | cp_solver/base.py:179 | the `values` list holds, per scope entry, that variable's assigned value or none, as the specification's slots |
| Checking.SweepVariable | cp_solver/base.py:183-187 | the loop over `enumerate()` leaves the swept mask and log of the specification; values and assignment unchanged |
| Checking.SweepTurn | cp_solver/base.py:183-187 | one pass: either the enumeration is exhausted, or one pair is consumed and hidden and logged iff it fails |
| Checking.CheckValue | cp_solver/base.py:184-187 | one value: unchanged when it passes; otherwise its position is hidden and `(x, i)` logged |
| Csps.CSP.constructor | cp_solver/base.py:218-223 | the variables are registered in order, with no constraints and an empty list each |
| Csps.CSP.AddVariable | cp_solver/base.py:225-230 | the variable is appended with an empty constraint list; constraints unchanged |
| Csps.CSP.AddConstraint | cp_solver/base.py:232-241 | succeeds iff every scope variable is registered; then the constraint is appended to the constraints and to each scope variable's list, once per occurrence; on failure the lists of the scope variables before the first unknown one have it appended and the constraint list is unchanged |
| Csps.AppendToLists | cp_solver/base.py:236-239 | the loop appends to each known scope variable's list, stopping at the first unknown one, and reports whether all were known |
| Csps.AppendEachSpec | cp_solver/base.py:236-239 | appending for a scope adds the constraint to each list once per occurrence in the scope |
| Csps.FirstUnknownKey | cp_solver/base.py:236-238 | the first scope position whose variable is unknown, every earlier one known |
| Csps.InvolvingSpec | cp_solver/base.py:249-250 | a constraint is in a variable's list iff it is registered and its scope mentions the variable |
| Csps.InvolvingAppend | cp_solver/base.py:239-241 | registering a constraint extends each variable's list by as many copies as the scope mentions it |
| Csps.CountZero | cp_solver/base.py:239 | a variable not in the scope gets no copy |
| Csps.AppendedRegistered | cp_solver/base.py:236-241 | after registration every variable's list is still exactly the registered constraints involving it |
| Csps.CSP.Constraints | cp_solver/base.py:243-244 | a copy of the constraint list |
| Csps.CSP.Variables | cp_solver/base.py:246-247 | a copy of the variable list |
| Csps.CSP.ConstraintsInvolving | cp_solver/base.py:249-250 | the variable's list (KeyError when unknown); for a registered CSP, exactly the constraints whose scope mentions it |
| Propagators.NoPropagationDwoIff | cp_solver/propagator.py:17-20 | `NoPropagation(v)` reports DWO iff some constraint involving `v` has its scope assigned and fails on the assigned values |
| Propagators.NoPropagationCall | cp_solver/propagator.py:13-21 | the log is empty; no newly assigned variable gives NO_DWO; otherwise the flag of the feasibility gate over `v`'s constraints |
| Propagators.ForwardCheckAll | cp_solver/propagator.py:24-34 | the sweep keeps every domain well formed and the number of variables |
| Propagators.ForwardCheckAllLogs | cp_solver/propagator.py:26-34 | the concatenated log names exactly the positions the whole sweep hid |
| Propagators.HidesCompose | cp_solver/propagator.py:29 | two exact logs in a row concatenate to an exact log |
| Propagators.ForwardCheckAllStep | cp_solver/propagator.py:27-32 | the sweep from constraint `i` is the check of constraint `i`, stopped there on DWO, otherwise its log prepended to the sweep of the rest |
| Propagators.ForwardCheckAllStops | cp_solver/propagator.py:30-32 | a DWO sweep stops at the first constraint whose check wipes out; everything before it reported NO_DWO, and the result is the prefix up to that constraint |
| Propagators.ForwardCheckAllOne | cp_solver/propagator.py:27-29 | the sweep of one constraint is its forward check |
| Propagators.ForwardCheckAllSnoc | cp_solver/propagator.py:27-34 | sweeping one more constraint after a NO_DWO prefix appends its check of the prefix's result |
| Propagators.OneOkHides | cp_solver/propagator.py:27-29 | hiding more values keeps "each visible value of a single unassigned variable passes" |
| Propagators.ForwardCheckOneOk | cp_solver/base.py:178-190 | after a constraint's forward check, every visible value of its single unassigned variable passes |
| Propagators.ForwardCheckAllConsistent | cp_solver/propagator.py:25-34 | after a NO_DWO sweep, for every constraint with one unassigned variable, each visible value of it passes |
| Propagators.Propagate | cp_solver/propagator.py:13-34 | a propagator only hides, its log names exactly what it hid, and `NoPropagation` changes nothing |
| Propagators.ForwardCheckCall | cp_solver/propagator.py:24-34 | the loop over the constraints leaves the states, flag and log of the sweep of the old states |
| Propagators.ForwardCheckTurn | cp_solver/propagator.py:28-32 | one pass of that loop, related to the sweep from that constraint on |
| Propagators.Call | cp_solver/propagator.py:9-10 | calling either propagator gives the flag, log and states of its specification |
| SearchModel.MinDomain | cp_solver/search.py:10-21 | none iff every variable is assigned; otherwise an unassigned variable of least domain size with no earlier one of equal size |
| SearchModel.MinDomainUnique | cp_solver/search.py:15-19 | that choice is unique |
| Search.GetMinDomainVariable | cp_solver/search.py:10-21 | the loop returns that choice |
| Search.GetValueInDomainOrder | cp_solver/search.py:24-27 | an iterator over the chosen variable's visible values in order, or over its assigned value |
| Search.BacktrackSearch.constructor | cp_solver/search.py:30-40 | keeps the CSP and propagator, with no solution yet |
| SearchModel.RestoreAllSpec | cp_solver/search.py:42-46 | after restoring, every variable is unassigned and fully visible with its values kept |
| Search.BacktrackSearch.RestoreAllDomains | cp_solver/search.py:42-46 | the loop leaves the restored states |
| SearchModel.UndoByValue | cp_solver/search.py:48-51 | the undo keeps the shape and well-formedness of every variable |
| SearchModel.UndoShowsLogged | cp_solver/search.py:48-51 | with domains `range(n)`, the undo succeeds and shows again exactly the logged positions, nothing else |
| SearchModel.UndoRestores | cp_solver/search.py:48-51 | with domains `range(n)`, undoing an exact log gives back the state before the prunings |
| SearchModel.UndoByValueMisses | cp_solver/search.py:48-51 | with other domains the undo can show the wrong position, or raise |
| Search.BacktrackSearch.RestorePruning | cp_solver/search.py:48-51 | the loop leaves the states and error flag of the undo |
| Search.BacktrackSearch.Unprune | cp_solver/search.py:51 | one entry: the value lookup succeeds or not, and the state changes accordingly |
| SearchModel.UnassignedCount | cp_solver/search.py:72-99 | the measure that bounds the recursion is at most the number of variables |
| SearchModel.AssignCounts | cp_solver/search.py:87 | assigning an unassigned variable lowers the number of unassigned variables by one |
| SearchModel.NoneUnassignedCount | cp_solver/search.py:76-79 | no unassigned variable left iff the count is zero |
| SearchModel.Assigned | cp_solver/search.py:81 | the solution list has one entry per variable |
| SearchModel.Recurse | cp_solver/search.py:72-99 | `_recurse` terminates, keeps the number of variables and their well-formedness, and records a solution iff it returns NO_DWO |
| SearchModel.RecurseUnfold | cp_solver/search.py:76-86 | with no unassigned variable, the solution is the assigned values; otherwise try the chosen variable's visible values |
| SearchModel.Attempt | cp_solver/search.py:87-88 | assigning `v` and propagating assigns exactly that variable and logs only known variables |
| SearchModel.Retract | cp_solver/search.py:95-96 | undoing and unassigning leaves the other assignments alone and, when the undo succeeds, leaves the variable unassigned |
| SearchModel.TryValue | cp_solver/search.py:86-96 | one value either ends the call or leaves the variable unassigned with the same number unassigned |
| SearchModel.TryValues | cp_solver/search.py:86-99 | the loop keeps the variables well formed and reports a solution iff NO_DWO |
| SearchModel.RecurseSound | cp_solver/search.py:72-99 | a solution iff NO_DWO, an error only with DWO; on NO_DWO every variable is assigned and the solution is their values in order; variables assigned at the start keep their values |
| SearchModel.TryValuesSound | cp_solver/search.py:86-99 | the same for the value loop |
| SearchModel.TryValueSound | cp_solver/search.py:86-96 | the same for one value that ends the call; one that does not leaves every assignment as it was |
| SearchModel.PassSucceeds | cp_solver/search.py:91-92 | a value without wipeout gives the deeper call's result |
| SearchModel.PassFails | cp_solver/search.py:94-96 | a value with wipeout: a failing undo ends the call with the error; otherwise the loop goes on from the restored, unassigned state |
| SearchModel.NoRetry | cp_solver/search.py:91-92 | after the first value without wipeout no other value is tried, even when the deeper call fails, and that assignment is kept |
| SearchModel.AllValuesFail | cp_solver/search.py:94-99 | with domains `range(n)`, if every value wipes out, the call returns DWO with the state it started from |
| SearchModel.InitialPropagation | cp_solver/search.py:56-59 | the initial sweep starts from the restored state, and its log names exactly what it hid |
| SearchModel.SearchSolutionShape | cp_solver/search.py:53-70 | a returned solution has one entry per variable, each the value the variable is assigned |
| SearchModel.InitialWipeoutLeaks | cp_solver/search.py:58-62 | an initial wipeout returns no solution with all variables unassigned, and leaves every initially pruned position hidden |
| Search.BacktrackSearch.RecordSolution | cp_solver/search.py:81 | the solution field becomes the assigned values in variable order |
| Search.BacktrackSearch.Recurse | cp_solver/search.py:72-99 | flag, error, states and solution field are those of `SearchModel.Recurse` of the old states |
| Search.BacktrackSearch.Solved | cp_solver/search.py:79-83 | with nothing unassigned, record the solution and return NO_DWO |
| Search.BacktrackSearch.Branch | cp_solver/search.py:85-99 | with a chosen variable, the value loop gives the recursion's result |
| Search.BacktrackSearch.TryAll | cp_solver/search.py:86-99 | the loop over the iterator gives `TryValues` over its remaining values |
| Search.BacktrackSearch.NextValue | cp_solver/search.py:86-96 | one iteration: either the call ends, or the iterator shrinks and the rest gives the same outcome |
| Search.BacktrackSearch.TryValue | cp_solver/search.py:87-96 | one value: ends the call with the outcome, or leaves the variable unassigned with the rest to try |
| Search.BacktrackSearch.Descend | cp_solver/search.py:91-92 | the recursive call gives the outcome of the value loop |
| Search.BacktrackSearch.Backtrack | cp_solver/search.py:95-96 | after a wipeout, the undo either raises, ending the loop with the error, or restores the loop's state for the rest |
| Search.BacktrackSearch.AssignAndPropagate | cp_solver/search.py:87-88 | states, flag and log are those of `Attempt` |
| Search.BacktrackSearch.RetractValue | cp_solver/search.py:95-96 | states and error flag are those of `Retract` |
| Search.BacktrackSearch.Search | cp_solver/search.py:53-70 | result and final states are those of `SearchModel.Search` of the old states |
| Search.BacktrackSearch.Finish | cp_solver/search.py:64-70 | recursing, undoing the initial log and reporting the result match `SearchModel.Finish` |
| Soundness.Restrict | cp_solver/search.py:81 | the solution's values at a constraint's scope, one per scope entry |
| Soundness.FillIsAssigned | cp_solver/base.py:179-184 | the tuple forward checking tests for `val` is the assigned tuple once the unassigned variable holds `val` |
| Soundness.IterationVisible | cp_solver/search.py:86 | a value the loop tries sits at a visible position |
| Soundness.AssignedHolds | cp_solver/base.py:183-189 | assigning a value that survived forward checking makes a fully assigned constraint hold |
| Soundness.AttemptConsistent | cp_solver/search.py:87-92 | with `ForwardCheck`, a value without wipeout leads to a state where every fully assigned constraint holds and forward checking is settled |
| Soundness.RetractRestores | cp_solver/search.py:94-96 | with domains `range(n)`, the undo after a wipeout gives back the state before the value was tried |
| Soundness.RecurseConsistent | cp_solver/search.py:72-99 | with `ForwardCheck`, a NO_DWO recursion from a consistent state ends in a consistent state |
| Soundness.TryValuesConsistent | cp_solver/search.py:86-99 | the same for the value loop |
| Soundness.InitialConsistent | cp_solver/search.py:56-62 | the initial sweep without wipeout gives a consistent state |
| Soundness.NothingAssignedConsistent | cp_solver/search.py:56-62 | with nothing assigned, a settled sweep is consistent |
| Soundness.SearchSound | cp_solver/search.py:53-70 | with `ForwardCheck`, every returned solution satisfies every constraint of the CSP |
| Soundness.ListedHolds | cp_solver/propagator.py:17-21 | a fully assigned constraint on the list `NoPropagation` checked without wipeout holds on the assigned values |
| Soundness.UntouchedHolds | cp_solver/search.py:87 | a constraint not naming the variable just assigned, fully assigned afterwards, was fully assigned before with the same tuple, so it still holds |
| Soundness.AttemptHolds | cp_solver/search.py:87-92 | with `NoPropagation` and lists as `add_constraint` builds them, a value without wipeout leads to a state where every fully assigned constraint holds |
| Soundness.RetractNothing | cp_solver/search.py:94-96 | with `NoPropagation`, whatever the domains' values, the undo after a wipeout gives back the state before the value |
| Soundness.RecurseHolds | cp_solver/search.py:72-99 | with `NoPropagation`, a NO_DWO recursion from a state where every fully assigned constraint holds ends in such a state |
| Soundness.TryValuesHolds | cp_solver/search.py:86-99 | the same for the value loop |
| Soundness.NothingAssignedHolds | cp_solver/search.py:56 | with nothing assigned and non-empty scopes, no constraint is fully assigned |
| Soundness.InitialHolds | cp_solver/search.py:56-62 | the initial `NoPropagation` call reports no wipeout, logs nothing and leaves the restored state |
| Soundness.RegisteredListsInvolving | cp_solver/base.py:236-241 | a CSP built by `add_constraint` hands `NoPropagation` each variable's constraints, as `constraints_involving_variable` returns them |
| Soundness.SearchSoundNoPropagation | cp_solver/search.py:53-70 | with `NoPropagation`, lists as `add_constraint` builds them and non-empty scopes, every returned solution satisfies every constraint, whatever the domains' values |
| Queens.Range | examples/queens.py:7 | `list(range(n))` |
| Queens.OuterShape | examples/queens.py:10-17 | every constraint `solve` adds is over two columns `i < j < n` |
| Queens.OuterHas | examples/queens.py:10-17 | the row and both diagonal constraints for every `i < j < n` are registered |
| Queens.QueensWellFormed | examples/queens.py:7-17 | the problem meets what soundness needs: `range(n)` domains, scopes over known columns without repeats, per-column lists as the CSP builds them |
| Queens.PairTests | examples/queens.py:13-17 | the three constraints for `i < j` hold iff the two queens share no row and no diagonal |
| Queens.SatisfiesAll | examples/queens.py:10-17 | values satisfying every constraint of `solve(n)` place no two queens on a row or diagonal |
| Queens.QueensSound | examples/queens.py:6-20 | a solution returned by `solve(n)` has one row per column and no two queens attack each other |

## Left out

- `GeneralArcConsistency` (cp_solver/propagator.py:37-40) is an unimplemented stub that returns `None`; there is nothing to model.
- Logging (cp_solver/search.py:7, 74, 82, 85, 90) is observability only.
- The pluggable heuristics of `BacktrackSearch` (cp_solver/search.py:31-39): the search always uses `get_min_domain_variable` and `get_value_in_domain_order`, both of which are modelled. The propagator is a parameter, either `NoPropagation` or `ForwardCheck`.
- Values are `int`. The source accepts any hashable value; its tests also use characters. Python's `None` sentinel for "unassigned" becomes `Option`.
- `FunctionConstraint`'s callable becomes a total Dafny function on the tuple as a sequence. A Python callable of the wrong arity would raise a TypeError; that case is not modelled.
- The `isinstance` checks and their TypeError (cp_solver/base.py:226, 233) are covered by typing.
- The unused `_current_iter` field of `Variable` (cp_solver/base.py:22) is dropped.
- The shared mutable default propagator of `BacktrackSearch.__init__` is dropped.
- Python's recursion limit is not modelled; the model proves that the recursion is bounded by the number of variables.
- `DomainWipeout` is a two-valued datatype, not an integer enum.
- Csps.CSP.AddVariable: requires that the object is not registered yet. In the source, registering it twice appends it again and resets its constraint list; with index-based variables two entries would alias one object.
- Csps.CSP.constructor: requires distinct variable objects, for the same reason.
- Soundness.SearchSound: stated for `ForwardCheck` with every domain `range(n)` and scopes without repeated variables. Those are the conditions under which the undo restores state exactly. `NoPropagation` logs nothing, so its undo is exact for any domain; its soundness is Soundness.SearchSoundNoPropagation. That lemma needs only non-empty scopes, since a constraint with an empty scope is never checked, and lists as `add_constraint` builds them (`Csps.CSP.Registered`). Neither search is proved complete. Neither is complete as written, since no other value is tried after a deeper failure.
- Queens.QueensSound: states soundness for every `n`. It does not state that `solve(8)` returns a solution, because that would need the search to be evaluated. tests/test_search.py:6-10 also compares each column with itself, where the first assertion cannot hold; the lemma states the property for distinct columns.

## Where the description and the code differ

The model follows the code as written in each of these places.

- **Tie-breaking.** The solver's design description says ties between
  smallest domains go to the variable in the most constraints. The code
  (cp_solver/search.py:17) keeps the first, lowest-index one.
  `SearchModel.MinDomain` models the code.
- **Undo log.** The description calls it a log of positions, replayed in
  reverse. The docstring of cp_solver/propagator.py:10 calls it a log of
  values. `forward_check` (cp_solver/base.py:187) logs positions.
  `_restore_pruning` (cp_solver/search.py:51) replays it in order, and
  looks each entry up as a value. This undo hits the right position only
  when `values[i] == i`. `SearchModel.UndoByValue` models the lookup and
  its ValueError, and `SearchModel.UndoByValueMisses` shows both ways it
  goes wrong.
- **Backtracking after a deeper failure.** The description says every
  branch's prunings are undone before the next value is tried. The code
  (cp_solver/search.py:91-92) returns the deeper result at once. It keeps
  that level's assignment and prunings, and tries no further value. See
  `SearchModel.NoRetry`.
- **Initial prunings.** The description says these are undone whatever
  the outcome. The code returns early on an initial wipeout
  (cp_solver/search.py:61-62) and leaves them in place. See
  `SearchModel.InitialWipeoutLeaks`.
