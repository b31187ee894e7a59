# A verified model of a 2-SAT DPLL solver and its brute-force checker

This project models two Python programs.

- **The DPLL solver** (`2SAT_Solver_mfues.py`). It decides whether a formula in
  conjunctive normal form is satisfiable.
  - A formula is a list of clauses. A clause is a list of nonzero integers: `v`
    means variable `v` is true, and `-v` means it is false.
  - The assignment store holds `nvars+1` pairs `[value, assigned]`. Variable `v`
    lives at index `v-1`.
  - The solver first runs unit propagation until the shortest clause is no
    longer a unit clause. It then runs pure-literal elimination until a pass
    changes nothing. After each pure-literal pass it answers True if the
    formula is empty and False if it holds an empty clause. Finally it
    backtracks on the lowest unassigned variable, trying true before false,
    each time on deep copies.
- **The brute-force checker** `check` (`DumbSAT_mfues.py`). It counts through
  every 0/1 assignment, using `Assignment[1..Nvars+1]` as a binary counter
  whose least significant bit is at index 1. `Assignment[Nvars+1]` is the
  overflow bit. It stops at the first assignment that satisfies the first
  `Nclauses` clauses.

The files:

- `cnf.dfy` (module `Cnf`): the shared meaning of formulas. It defines literals,
  clauses and store cells, when a store satisfies a formula, completions of a
  partial store (`Extends`), and satisfiability over variables `1..nvars`.
- `simplifier.dfy` (module `Simplifier`): `set_assignment`, `unit_propagate`,
  `pure_literal`, `remove_pure_literal` and `findUnitClause`.
  - Each scan is a method with the source's loop. It is proved equal to a
    reference function: `Propagate` or `RemoveClauses`.
  - The reference functions' properties are proved as lemmas.
- `search.dfy` (module `Search`): `backtrack` and `DPLL`.
  - The store is an `array<Cell>` updated in place. A deep copy is a fresh
    array.
  - The simplification loops keep the invariant `Reduces`: the current formula
    under the current store has a model exactly when the input does, and
    every completion that satisfies it satisfies the input.
- `dumbsat.dfy` (module `DumbSat`): `check`, its clause and literal loops, its
  counter increment, and the set-up in `test_wff`.
  - The counter is read as a number, least significant bit first.
  - `check` is proved to find a model exactly when one exists among the counter
    values from its starting value up to the overflow. From the all-zero start
    this means it finds one exactly when the formula is satisfiable.
- `crosscheck.dfy` (module `CrossCheck`): the two deciders run on the same
  formula give the same verdict.

## Model

| member | source | states |
|---|---|---|
| Simplifier.SetAssignment | 2SAT_Solver_mfues.py:7-16 | The store gets `[1,1]` at index `abs(lit)-1` for a positive literal and `[0,1]` for a negative one. Every other entry is unchanged. |
| Simplifier.RemoveFirst | 2SAT_Solver_mfues.py:36 | `list.remove(x)` drops exactly one occurrence of `x`: the length falls by one and the multiset loses one `x`. |
| Simplifier.StripRemoveFirst | 2SAT_Solver_mfues.py:35-36 | Removing one `x` does not change what deleting all occurrences of `x` leaves. |
| Simplifier.RemoveAll | 2SAT_Solver_mfues.py:35-36 | Repeating `remove(-lit)` while `-lit` is present leaves the clause with every `-lit` deleted and the other literals in order. |
| Simplifier.StripMembers | 2SAT_Solver_mfues.py:34-36 | After the deletion, a literal is in the clause iff it was there before and is not the deleted one. |
| Simplifier.StripEmpty | 2SAT_Solver_mfues.py:34-36 | Deleting `-lit` turns a clause into `[]` iff the clause consisted only of `-lit`. |
| Simplifier.UnitPropagate | 2SAT_Solver_mfues.py:18-41 | Records `lit` in the store. The first `nclauses` clauses become `Propagate` of them: the clauses without `lit`, in order, each with `-lit` deleted. Clauses past `nclauses` are untouched. |
| Simplifier.PropagateClause | 2SAT_Solver_mfues.py:29-39 | One step of the scan: the clause at position `i` is popped iff it contains `lit`, otherwise `-lit` is deleted from it. The scan invariant advances by one input clause. |
| Simplifier.PropagateOrigin | 2SAT_Solver_mfues.py:28-39 | Every clause left by propagation is an input clause without `lit`, with `-lit` deleted. |
| Simplifier.PropagateKeeps | 2SAT_Solver_mfues.py:34-39 | Every input clause without `lit` survives propagation, with `-lit` deleted. |
| Simplifier.PropagateClears | 2SAT_Solver_mfues.py:28-39 | No clause left by propagation mentions `lit` or `-lit`. |
| Simplifier.PropagateShrinks | 2SAT_Solver_mfues.py:30-32 | If some clause contains `lit`, propagation leaves strictly fewer clauses. |
| Simplifier.PropagateIsRemoveThenStrip | 2SAT_Solver_mfues.py:28-39 | Propagation equals dropping the clauses that contain `lit`, then deleting `-lit` from each clause left. |
| Simplifier.PropagateForward | 2SAT_Solver_mfues.py:18-41 | An assignment that makes `lit` true and satisfies the formula satisfies the propagated formula. |
| Simplifier.PropagateBack | 2SAT_Solver_mfues.py:18-41 | An assignment that makes `lit` true and satisfies the propagated formula satisfies the original. |
| Simplifier.PureScan | 2SAT_Solver_mfues.py:48-58 | The scan with its `found` flag returns true iff (`found` holds or `lit` occurs in some clause) and no clause contains `-lit`. |
| Simplifier.PureLiteral | 2SAT_Solver_mfues.py:43-58 | True iff `lit` occurs in some clause and `-lit` in none. The empty formula gives false. |
| Simplifier.RemovePureLiteral | 2SAT_Solver_mfues.py:60-79 | Records `lit` in the store. The first `nclauses` clauses become the clauses without `lit`, unchanged and in order. Clauses past `nclauses` are untouched. |
| Simplifier.RemoveMembers | 2SAT_Solver_mfues.py:72-77 | A clause survives the removal iff it was in the formula and does not contain `lit`. |
| Simplifier.RemoveShrinks | 2SAT_Solver_mfues.py:74-76 | If some clause contains `lit`, the removal leaves strictly fewer clauses. |
| Simplifier.RemoveIsPropagateWhenPure | 2SAT_Solver_mfues.py:60-79 | When `-lit` occurs nowhere, removing the clauses of `lit` gives the same formula as unit propagation of `lit`. |
| Simplifier.MinLength | 2SAT_Solver_mfues.py:123-125 | The length of the first clause after sorting by length: some clause has that length, and none is shorter. |
| Simplifier.FindUnitClause | 2SAT_Solver_mfues.py:117-127 | On a non-empty formula: true iff some clause has length 1 and no clause is empty. |
| Search.InitialReduces | 2SAT_Solver_mfues.py:138 | The input formula with the all-unassigned store of `nvars+1` cells satisfies the invariant `Reduces`. |
| Search.UnitVariable | 2SAT_Solver_mfues.py:141-149 | When some clause has length 1, the unit pass's variable loop meets a variable `u` in 1..nvars with `[u]` or `[-u]` in the formula. |
| Search.UnitStep | 2SAT_Solver_mfues.py:145-149 | Propagating the literal of a unit clause keeps `Reduces`, with the store updated at that variable. |
| Search.PropagateOver | 2SAT_Solver_mfues.py:102 | After propagating `lit`, every literal left is still in range and names a variable the updated store has not assigned. |
| Search.PureFlip | 2SAT_Solver_mfues.py:60-79 | Setting a pure literal's variable to its polarity keeps a model of the formula a model of what `remove_pure_literal` leaves. |
| Search.PureStep | 2SAT_Solver_mfues.py:160-167 | Removing the clauses of a pure literal keeps `Reduces`, with the store updated at that variable. |
| Search.EmptyReduces | 2SAT_Solver_mfues.py:170-171 | When the formula is empty, every completion of the store satisfies the input, so the input is satisfiable. |
| Search.EmptyClauseReduces | 2SAT_Solver_mfues.py:173-174 | When the formula holds an empty clause, the input is unsatisfiable. |
| Search.BacktrackReduces | 2SAT_Solver_mfues.py:176 | The answer of `backtrack` on the reduced formula is a right answer for the input: a model-complete store, or "unsatisfiable" only when nothing over 1..nvars satisfies the input. |
| Search.AssignLowers | 2SAT_Solver_mfues.py:100 | Assigning an unassigned variable lowers the count of unassigned cells by one, so the recursion ends. |
| Search.SplitWitness | 2SAT_Solver_mfues.py:99-115 | A model that extends the store satisfies the formula propagated with `v` or with `-v`, whichever it makes true, under the store extended with that literal. |
| Search.SplitStep | 2SAT_Solver_mfues.py:99-115 | If neither branch has a model under its extended store, the formula has none under the store. |
| Search.BranchSound | 2SAT_Solver_mfues.py:102-107 | A store returned for the propagated formula keeps the caller's assigned cells, and every completion of it satisfies the formula before propagation. |
| Search.CopyStore | 2SAT_Solver_mfues.py:102 | `copy.deepcopy(assignments)`: a freshly allocated array holding the same cells, so later writes to either store leave the other alone. |
| Search.Branch | 2SAT_Solver_mfues.py:100-107 | One branch of the split: propagation on a deep copy, then the recursive call. It succeeds iff the propagated formula has a model under the store extended with `lit`. On success the returned store keeps every cell of that extended store, so it records `lit`, and every completion of it satisfies the formula. On failure it returns `[]`. |
| Search.Backtrack | 2SAT_Solver_mfues.py:81-115 | The empty formula returns True with the store itself. A formula with an empty clause returns `(False, [])` and leaves the store alone. Otherwise, for the lowest unassigned variable: if the true branch has a model, the answer is True; the caller's store ends with `[1,1]` there when the true branch has a model and `[0,1]` when it has none; a True answer's store agrees with the caller's at that variable. "True" comes with a store that refines the input store and all of whose completions satisfy the formula. "False" means no completion of the input store satisfies it. |
| Search.Split | 2SAT_Solver_mfues.py:99-115 | The two branches on the first free variable `v`, true first. When the true branch has a model the answer is True and its store has `v = [1,1]`. Otherwise the caller's store ends with `v = [0,1]`, and a True answer has `v = [0,1]` too. It has the same answer guarantees as `backtrack`. |
| Search.UnitOne | 2SAT_Solver_mfues.py:145-150 | The unit step for one variable keeps the store's length and never adds clauses. |
| Search.UnitFrom | 2SAT_Solver_mfues.py:143-151 | A unit pass from a variable on keeps the store's length and never adds clauses. |
| Search.PropagateInRange | 2SAT_Solver_mfues.py:18-41 | Propagation keeps every literal in `±1..nvars`. |
| Search.UnitFromInRange | 2SAT_Solver_mfues.py:143-151 | A unit pass keeps every literal in `±1..nvars`. |
| Search.UnitKept | 2SAT_Solver_mfues.py:145-149 | Propagating a literal of another variable keeps a unit clause `[u]` or `[-u]` in the formula. |
| Search.UnitOneShrinks | 2SAT_Solver_mfues.py:145-149 | The unit step for a variable with a unit clause `[u]` or `[-u]` drops at least one clause. |
| Search.UnitOneKeeps | 2SAT_Solver_mfues.py:145-150 | The unit step for another variable keeps a unit clause of `u` present. |
| Search.UnitFromShrinks | 2SAT_Solver_mfues.py:143-151 | A unit pass that reaches a variable with a unit clause drops at least one clause. |
| Search.UnitShrinks | 2SAT_Solver_mfues.py:141-151 | When `findUnitClause` is true, a whole pass drops at least one clause and keeps literals in range, so the `while findUnitClause` loop ends. |
| Search.Unit | 2SAT_Solver_mfues.py:145-149 | One `unit_propagate` call of the unit phase: the formula becomes `Propagate(wff, lit)` and the store gets `lit` at its variable, which was unassigned. `Reduces` is kept and at least one clause is removed. |
| Search.UnitAt | 2SAT_Solver_mfues.py:145-150 | The loop body for variable `lit`: the new formula and store are the unit step of the old ones. The store only gains assignments and `Reduces` is kept. |
| Search.UnitPass | 2SAT_Solver_mfues.py:143-151 | One pass of the variable loop: the new formula and store are the unit pass of the old ones. The store only gains assignments, `Reduces` is kept, and at least one clause goes when the formula has a unit clause over 1..nvars. |
| Search.PureOne | 2SAT_Solver_mfues.py:157-167 | The pure step for one variable keeps the store's length and never adds clauses. |
| Search.PureFrom | 2SAT_Solver_mfues.py:157-168 | A pure pass from a variable on keeps the store's length and never adds clauses. |
| Search.NoPureBelowAll | 2SAT_Solver_mfues.py:157-168 | Having met no pure literal for each of the variables below `n` means neither literal of any of them is pure. |
| Search.Pure | 2SAT_Solver_mfues.py:160-167 | One `remove_pure_literal` call of the pure phase: the formula becomes `RemoveClauses(wff, lit)` and the store gets `lit` at its variable, which was unassigned. `Reduces` is kept and at least one clause is removed. |
| Search.PureAt | 2SAT_Solver_mfues.py:157-168 | The loop body for variable `lit`: the new formula and store are the pure step of the old ones. Nothing is dropped only when neither literal of `lit` is pure, and then the formula is unchanged. |
| Search.PurePass | 2SAT_Solver_mfues.py:155-168 | One pass: the new formula and store are the pure pass of the old ones. The store only gains assignments and `Reduces` is kept. `changed` is set only when the formula got strictly shorter. When it stays false the formula is unchanged and no literal over 1..nvars is pure: the fixed point the `while changed` loop stops at. |
| Search.Dpll | 2SAT_Solver_mfues.py:129-176 | "True" comes with a store of `nvars+1` cells that satisfies every input clause, as does every completion of it. "False" comes with `[]` only when no assignment satisfies the input. The `IndexError` of the unit-clause test happens exactly when the unit phase, run from the fresh store, empties the formula. It always happens on the empty formula, never on a non-empty formula without a unit clause, and only on satisfiable inputs. |
| DumbSat.ValInc | DumbSAT_mfues.py:56-60 | When some counter bit is 0, the increment adds one to the counter's value. |
| DumbSat.IncWraps | DumbSAT_mfues.py:56-60 | A counter of all 1s becomes all 0s. |
| DumbSat.IncOnes | DumbSAT_mfues.py:56-60 | The leading 1 bits (from index 1 upward) become 0, and the rest is incremented from the first 0 on. |
| DumbSat.ValInjective | DumbSAT_mfues.py:35-38 | Counters of the same length with the same value are equal, so every value stands for one assignment. |
| DumbSat.Increment | DumbSAT_mfues.py:56-60 | `Assignment[1..]` becomes its increment. `Assignment[0]` is unchanged. |
| DumbSat.EvalClause | DumbSAT_mfues.py:45-52 | The literal loop sets `Satisfiable` iff some literal `L` has `Assignment[abs(L)]` equal to its polarity. |
| DumbSat.EvalWff | DumbSAT_mfues.py:42-53 | The clause loop ends with `Satisfiable` iff `Nclauses > 0` and the current assignment satisfies each of the first `Nclauses` clauses. An empty clause, or no clauses at all, gives false. |
| DumbSat.Found | DumbSAT_mfues.py:54 | Leaving the loop on a satisfying counter value below the overflow proves a model exists among the values from the start. |
| DumbSat.RejectStep | DumbSAT_mfues.py:53-60 | A rejected value extends the range of rejected values by one. |
| DumbSat.Exhausted | DumbSAT_mfues.py:40 | Reaching the overflow bit with every earlier value rejected proves that no value from the start satisfies the formula. |
| DumbSat.Overflowed | DumbSAT_mfues.py:56-60 | Stopping at the overflow bit from a start no larger than `2^Nvars` leaves `Assignment[1..Nvars]` all 0. |
| DumbSat.AcceptedFromZero | DumbSAT_mfues.py:36-38 | From the all-zero start, the counter values cover all assignments: some value is accepted iff `Nclauses > 0` and the first `Nclauses` clauses are satisfiable. |
| DumbSat.Check | DumbSAT_mfues.py:34-61 | Returns True iff some counter value from the start value up to the overflow satisfies the first `Nclauses` clauses. On True, the final `Assignment` is such a value, the first one at or after the start, and the overflow bit is 0. On False, the overflow bit is 1, and from a zero start `Assignment[1..Nvars]` are all 0. `Assignment[0]` is never changed. |
| DumbSat.SatisfiableAgree | DumbSAT_mfues.py:13-16 | On formulas over 1..nvars, satisfiability over stores of `nvars+1` cells coincides with satisfiability over lists of `nvars` bits. |
| DumbSat.TestWff | DumbSAT_mfues.py:74-80 | From a fresh list of `Nvars+2` zeros, the flag is True iff `Nclauses > 0` and the first `Nclauses` clauses are satisfiable. On True the returned `Assignment` satisfies them. On False it is `Nvars+1` zeros followed by the overflow 1. |
| CrossCheck.Compare | DumbSAT_mfues.py:2-3 | On every formula over 1..nvars where DPLL returns, its verdict equals the brute-force verdict. DPLL raises `IndexError` exactly when its unit phase empties the formula, so a non-empty formula without a unit clause always gets equal verdicts. On a non-empty formula the `IndexError` happens only where the brute force says satisfiable. On the empty formula, DPLL raises `IndexError` and the brute force says unsatisfiable. |

## Left out

- Timing (`time.time`), printing, file reading and writing, CSV formatting,
  `build_wff`, `run_cases`, `test_execution`, `trace_execution`,
  `generate_scatter_plot`, `convert_to_int`, the formula generator
  (`2SAT_WFF_Generator_mfues.py`) and the module-level drivers are not part of
  this model. They are I/O, randomness, plotting or floating-point statistics.
- `test_wff` in `2SAT_Solver_mfues.py` is left out. It only times a `DPLL` call.
- In-place editing of the formula list is not modelled.
  - `unit_propagate` and `remove_pure_literal` `pop` clauses and `remove`
    literals in the caller's list. Here the same edits happen on a sequence
    value the method returns.
  - Every caller rebinds its formula to the returned list or passes a deep
    copy, so only aliasing of the caller's list by other references is lost.
    `DPLL` does mutate the list its own caller passed in; that side effect is
    not modelled.
- `findUnitClause` sorts a copy of the formula and tests the first element's
  length. The model computes the minimum clause length instead, which is what
  the sorted list's first element has.
- `Search.Dpll` requires `nclauses == len(wff)` and every literal in
  `±1..nvars`.
  - With a unit clause whose literal is out of range, the source's unit loop
    never terminates.
  - A smaller `nclauses` would leave clauses unpropagated in the first pass.
- `Search.Backtrack`: the `for ... else: return True` branch (all variables
  assigned) is proved unreachable. Every literal of a non-empty formula without
  an empty clause names an unassigned variable.
- `DumbSat.Check`, `DumbSat.EvalWff`, `DumbSat.EvalClause` and `DumbSat.TestWff`
  require every literal of the first `Nclauses` clauses to be in `±1..Nvars`.
  Literal 0 would read `Assignment[0]`, `±(Nvars+1)` would read the overflow
  bit, and larger ones raise `IndexError` in the source.
- `DumbSat.Increment` returns at the first 0 bit where the source uses `break`.
  The two behave the same.
- Where the written behaviour and the solver's documented intent differ, the
  model follows the code.
  - The empty formula, or any formula that unit propagation empties (`[[1]]`,
    `[[1],[-1,2],[-2,3]]`), makes `DPLL` raise `IndexError` in
    `findUnitClause` instead of answering "satisfiable".
  - An empty clause makes `findUnitClause` answer false even when a unit clause
    is present.
  - `DPLL` does not return to unit propagation after the pure-literal phase.
  - Literal ranges are not validated by the solver.
  - `check` with `Nclauses == 0` returns False.
