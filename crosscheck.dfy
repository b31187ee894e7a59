/**
  The brute-force enumeration exists to produce verdicts the DPLL solver is
  compared against. Run side by side on the same formula whose literals name
  variables in 1..nvars, the two agree whenever the solver returns a verdict.
 */
module CrossCheck {
  import opened Cnf
  import opened Simplifier
  import Search
  import DumbSat

  /**
    Both deciders on `wff` with all of its clauses. Whenever the solver
    returns, it agrees with the enumeration. It raises the `IndexError`
    exactly when its unit phase empties the formula; on a non-empty formula
    the enumeration then says "satisfiable", and on the empty formula it says
    "unsatisfiable" (it sets its flag only inside the clause loop). A
    non-empty formula with no unit clause never reaches the `IndexError`.
   */
  method Compare(wff: seq<Clause>, nvars: nat) returns (solver: Search.Outcome, oracle: bool)
    requires InRange(wff, nvars)
    ensures solver.Returned? ==> solver.sat == oracle
    ensures solver.IndexError? <==> Search.UnitEmpties(Search.State(wff, Search.Fresh(nvars)), nvars)
    ensures wff != [] && !FindUnitClause(wff) ==> solver.Returned? && solver.sat == oracle
    ensures wff != [] && solver.IndexError? ==> oracle
    ensures wff == [] ==> solver.IndexError? && !oracle
  {
    assert wff[..|wff|] == wff;
    solver := Search.Dpll(wff, nvars, |wff|);
    var assignment;
    assignment, oracle := DumbSat.TestWff(wff, nvars, |wff|);
  }
}
