/**
  The search part of the DPLL solver: `backtrack`, which splits on the lowest
  unassigned variable, and `DPLL`, which runs unit propagation and pure-literal
  elimination to a fixed point before handing the rest to `backtrack`.

  Correctness is stated against the semantics of module `Cnf`: a returned
  assignment satisfies the input formula, and an "unsatisfiable" answer means
  no assignment to variables 1..nvars satisfies it.
 */
module Search {
  import opened Cnf
  import opened Simplifier

  /**
    What a call of `DPLL` does: it returns a pair `(satisfiable, assignments)`,
    or it raises `IndexError` (when unit propagation empties the formula, the
    unit-clause test indexes an empty list).
   */
  datatype Outcome = Returned(sat: bool, assignment: seq<Cell>) | IndexError

  // ---------------------------------------------------------------------------
  // The invariant of the simplification phase
  // ---------------------------------------------------------------------------

  /**
    `wff` with the store `cells` is an equivalent stand-in for the input `wff0`:
    its literals are unassigned variables in 1..nvars, every completion of
    `cells` that satisfies `wff` satisfies `wff0`, and if `wff0` has a model at
    all then some completion of `cells` satisfies `wff`.
   */
  ghost predicate Reduces(wff0: seq<Clause>, wff: seq<Clause>, cells: seq<Cell>, nvars: nat)
  {
    |cells| == nvars + 1 &&
    InRange(wff, nvars) &&
    OverUnassigned(wff, cells) &&
    KeepsSound(wff0, wff, cells) &&
    KeepsModels(wff0, wff, cells, nvars)
  }

  /** Every completion of `cells` that satisfies `wff` satisfies `wff0`. */
  ghost predicate KeepsSound(wff0: seq<Clause>, wff: seq<Clause>, cells: seq<Cell>)
  {
    forall a :: Extends(a, cells) && Satisfies(wff, a) ==> Satisfies(wff0, a)
  }

  /** If `wff0` has a model, some completion of `cells` satisfies `wff`. */
  ghost predicate KeepsModels(wff0: seq<Clause>, wff: seq<Clause>, cells: seq<Cell>, nvars: nat)
  {
    Satisfiable(wff0, nvars) ==> SatUnder(wff, cells)
  }

  /** The fresh store `[[0,0]] * (nvars+1)` with the input formula. */
  lemma InitialReduces(wff0: seq<Clause>, nvars: nat)
    requires InRange(wff0, nvars)
    ensures Reduces(wff0, wff0, Fresh(nvars), nvars)
  {
    var cells := Fresh(nvars);
    if Satisfiable(wff0, nvars) {
      var a: seq<Cell> :| |a| == nvars + 1 && Satisfies(wff0, a);
      assert Extends(a, cells);
    }
  }

  /**
    Unit propagation of `lit` leaves only literals over variables still
    unassigned once `lit` is recorded.
   */
  lemma PropagateOver(wff: seq<Clause>, lit: int, cells: seq<Cell>, nvars: nat)
    requires InRange(wff, nvars) && OverUnassigned(wff, cells)
    requires 1 <= Abs(lit) <= |cells|
    ensures InRange(Propagate(wff, lit), nvars)
    ensures OverUnassigned(Propagate(wff, lit), cells[Abs(lit) - 1 := UnitCell(lit)])
  {
    var w := Propagate(wff, lit);
    var cells' := cells[Abs(lit) - 1 := UnitCell(lit)];
    forall c, z | c in w && z in c
      ensures 1 <= Abs(z) <= nvars && 1 <= Abs(z) <= |cells'| && cells'[Abs(z) - 1].flag == 0
    {
      var d := PropagateOrigin(wff, lit, c);
      StripMembers(d, -lit);
      PropagateClears(wff, lit, c);
      assert z in d && Abs(z) != Abs(lit);
    }
  }

  /** Soundness survives unit propagation of a literal the store records. */
  lemma UnitSound(wff0: seq<Clause>, wff: seq<Clause>, cells: seq<Cell>, lit: int)
    requires KeepsSound(wff0, wff, cells) && 1 <= Abs(lit) <= |cells|
    requires cells[Abs(lit) - 1].flag == 0
    ensures KeepsSound(wff0, Propagate(wff, lit), cells[Abs(lit) - 1 := UnitCell(lit)])
  {
    var cells' := cells[Abs(lit) - 1 := UnitCell(lit)];
    forall a | Extends(a, cells') && Satisfies(Propagate(wff, lit), a)
      ensures Satisfies(wff0, a)
    {
      assert LitTrue(lit, a);
      PropagateBack(wff, lit, a);
      assert Extends(a, cells);
    }
  }

  /** Models survive propagation of a unit clause: every model makes it true. */
  lemma UnitModels(wff0: seq<Clause>, wff: seq<Clause>, cells: seq<Cell>, nvars: nat, lit: int)
    requires KeepsModels(wff0, wff, cells, nvars) && [lit] in wff && 1 <= Abs(lit) <= |cells|
    ensures KeepsModels(wff0, Propagate(wff, lit), cells[Abs(lit) - 1 := UnitCell(lit)], nvars)
  {
    if Satisfiable(wff0, nvars) {
      var a: seq<Cell> :| Extends(a, cells) && Satisfies(wff, a);
      assert ClauseTrue([lit], a);
      PropagateForward(wff, lit, a);
      assert Extends(a, cells[Abs(lit) - 1 := UnitCell(lit)]);
    }
  }

  /** Recording a unit clause's literal and propagating it keeps the invariant. */
  lemma UnitStep(wff0: seq<Clause>, wff: seq<Clause>, cells: seq<Cell>, nvars: nat, lit: int)
    requires Reduces(wff0, wff, cells, nvars) && [lit] in wff
    ensures 1 <= Abs(lit) <= nvars && cells[Abs(lit) - 1].flag == 0
    ensures Reduces(wff0, Propagate(wff, lit), cells[Abs(lit) - 1 := UnitCell(lit)], nvars)
  {
    assert lit in [lit];
    PropagateOver(wff, lit, cells, nvars);
    UnitSound(wff0, wff, cells, lit);
    UnitModels(wff0, wff, cells, nvars, lit);
  }

  /** Dropping the clauses of a pure literal leaves only unassigned variables. */
  lemma PureOver(wff: seq<Clause>, lit: int, cells: seq<Cell>, nvars: nat)
    requires InRange(wff, nvars) && OverUnassigned(wff, cells) && IsPure(lit, wff)
    requires 1 <= Abs(lit) <= |cells|
    ensures InRange(RemoveClauses(wff, lit), nvars)
    ensures OverUnassigned(RemoveClauses(wff, lit), cells[Abs(lit) - 1 := UnitCell(lit)])
  {
    var r, after := RemoveClauses(wff, lit), cells[Abs(lit) - 1 := UnitCell(lit)];
    RemoveMembers(wff, lit);
    forall c, z | c in r && z in c
      ensures 1 <= Abs(z) <= nvars && 1 <= Abs(z) <= |after| && after[Abs(z) - 1].flag == 0
    {
      assert c in wff && lit !in c && -lit !in c;
      assert Abs(z) != Abs(lit);
    }
  }

  /** With the pure literal true, a model of the remaining clauses is a model of all. */
  lemma PureBack(wff: seq<Clause>, lit: int, a: seq<Cell>)
    requires LitTrue(lit, a) && Satisfies(RemoveClauses(wff, lit), a)
    ensures Satisfies(wff, a)
  {
    RemoveMembers(wff, lit);
    forall c | c in wff ensures ClauseTrue(c, a) {
      if lit in c {
        assert LitTrue(lit, a);
      } else {
        assert c in RemoveClauses(wff, lit);
      }
    }
  }

  /** Making a pure literal true keeps every clause without it satisfied. */
  lemma PureFlip(wff: seq<Clause>, lit: int, a: seq<Cell>)
    requires IsPure(lit, wff) && Satisfies(wff, a) && 1 <= Abs(lit) <= |a|
    ensures Satisfies(RemoveClauses(wff, lit), a[Abs(lit) - 1 := Cell(Polarity(lit), a[Abs(lit) - 1].flag)])
  {
    var k := Abs(lit) - 1;
    var cell := Cell(Polarity(lit), a[k].flag);
    RemoveMembers(wff, lit);
    forall c | c in RemoveClauses(wff, lit) ensures ClauseTrue(c, a[k := cell]) {
      var z :| z in c && LitTrue(z, a);
      assert z != lit && z != -lit;
      LitTrueElsewhere(z, a, k, cell);
    }
  }

  /** Soundness survives pure-literal removal. */
  lemma PureSound(wff0: seq<Clause>, wff: seq<Clause>, cells: seq<Cell>, lit: int)
    requires KeepsSound(wff0, wff, cells) && 1 <= Abs(lit) <= |cells|
    requires cells[Abs(lit) - 1].flag == 0
    ensures KeepsSound(wff0, RemoveClauses(wff, lit), cells[Abs(lit) - 1 := UnitCell(lit)])
  {
    var cells' := cells[Abs(lit) - 1 := UnitCell(lit)];
    forall a | Extends(a, cells') && Satisfies(RemoveClauses(wff, lit), a)
      ensures Satisfies(wff0, a)
    {
      assert LitTrue(lit, a);
      PureBack(wff, lit, a);
      assert Extends(a, cells);
    }
  }

  /** Models survive pure-literal removal, after flipping the pure variable. */
  lemma PureModels(wff0: seq<Clause>, wff: seq<Clause>, cells: seq<Cell>, nvars: nat, lit: int)
    requires KeepsModels(wff0, wff, cells, nvars) && IsPure(lit, wff) && 1 <= Abs(lit) <= |cells|
    ensures KeepsModels(wff0, RemoveClauses(wff, lit), cells[Abs(lit) - 1 := UnitCell(lit)], nvars)
  {
    if Satisfiable(wff0, nvars) {
      var k := Abs(lit) - 1;
      var a: seq<Cell> :| Extends(a, cells) && Satisfies(wff, a);
      PureFlip(wff, lit, a);
      assert Extends(a[k := Cell(Polarity(lit), a[k].flag)], cells[k := UnitCell(lit)]);
    }
  }

  /**
    Recording a pure literal and dropping the clauses that contain it keeps the
    invariant: a model can always be flipped to make the pure literal true.
   */
  lemma PureStep(wff0: seq<Clause>, wff: seq<Clause>, cells: seq<Cell>, nvars: nat, lit: int)
    requires Reduces(wff0, wff, cells, nvars) && IsPure(lit, wff)
    ensures 1 <= Abs(lit) <= nvars && cells[Abs(lit) - 1].flag == 0
    ensures Reduces(wff0, RemoveClauses(wff, lit), cells[Abs(lit) - 1 := UnitCell(lit)], nvars)
  {
    var c0 :| c0 in wff && lit in c0;
    PureOver(wff, lit, cells, nvars);
    PureSound(wff0, wff, cells, lit);
    PureModels(wff0, wff, cells, nvars, lit);
  }

  /** The invariant with an empty formula: every completion of the store is a model. */
  lemma EmptyReduces(wff0: seq<Clause>, cells: seq<Cell>, nvars: nat)
    requires Reduces(wff0, [], cells, nvars)
    ensures forall a :: Extends(a, cells) ==> Satisfies(wff0, a)
    ensures Satisfies(wff0, cells) && Satisfiable(wff0, nvars)
  {
    assert Extends(cells, cells);
  }

  /** The invariant with an empty clause: the input has no model. */
  lemma EmptyClauseReduces(wff0: seq<Clause>, wff: seq<Clause>, cells: seq<Cell>, nvars: nat)
    requires Reduces(wff0, wff, cells, nvars) && [] in wff
    ensures !Satisfiable(wff0, nvars)
  {
    forall a | Extends(a, cells) ensures !Satisfies(wff, a) {
      assert !ClauseTrue([], a);
    }
  }

  /** What `backtrack` returns for the reduced formula is a verdict on the input. */
  lemma BacktrackReduces(wff0: seq<Clause>, wff: seq<Clause>, cells: seq<Cell>, nvars: nat,
                         sat: bool, result: seq<Cell>)
    requires Reduces(wff0, wff, cells, nvars)
    requires sat ==> Refines(result, cells) && forall a :: Extends(a, result) ==> Satisfies(wff, a)
    requires !sat ==> !SatUnder(wff, cells)
    ensures sat ==> |result| == nvars + 1 && Satisfies(wff0, result) &&
                    forall a :: Extends(a, result) ==> Satisfies(wff0, a)
    ensures !sat ==> !Satisfiable(wff0, nvars)
  {
    if sat {
      forall a | Extends(a, result) ensures Satisfies(wff0, a) {
        ExtendsRefines(a, result, cells);
      }
      assert Extends(result, result);
    }
  }

  /** `wff` holds the unit clause `[u]` or `[-u]`. */
  predicate HasUnit(wff: seq<Clause>, u: int)
  {
    [u] in wff || [-u] in wff
  }

  /** A unit clause names a variable in 1..nvars, positively or negatively. */
  lemma UnitVariable(wff: seq<Clause>, nvars: nat) returns (u: int)
    requires InRange(wff, nvars) && exists c :: c in wff && |c| == 1
    ensures 1 <= u <= nvars && HasUnit(wff, u)
  {
    var c :| c in wff && |c| == 1;
    assert c == [c[0]] && c[0] in c;
    u := Abs(c[0]);
    if c[0] < 0 {
      assert c == [-u];
    }
  }

  // ---------------------------------------------------------------------------
  // The passes of DPLL on the formula and the store
  // ---------------------------------------------------------------------------

  /** The formula and the assignment store between the steps of `DPLL`. */
  datatype State = State(wff: seq<Clause>, cells: seq<Cell>)

  /** The store `[[0,0]] * (nvars+1)` that `DPLL` starts from. */
  function Fresh(nvars: nat): (cells: seq<Cell>)
    ensures |cells| == nvars + 1
  {
    seq(nvars + 1, _ => Cell(0, 0))
  }

  /**
    The unit step for variable `lit`: it is propagated true if its positive
    unit clause is present, otherwise false if its negative one is.
   */
  function UnitOne(s: State, lit: int): (r: State)
    requires 1 <= lit <= |s.cells|
    ensures |r.cells| == |s.cells| && |r.wff| <= |s.wff|
  {
    if [lit] in s.wff then State(Propagate(s.wff, lit), s.cells[lit - 1 := UnitCell(lit)])
    else if [-lit] in s.wff then State(Propagate(s.wff, -lit), s.cells[lit - 1 := UnitCell(-lit)])
    else s
  }

  /** A unit pass: the unit steps for variables `lit` up to `nvars`, in order. */
  function UnitFrom(s: State, nvars: nat, lit: int): (r: State)
    requires 1 <= lit && |s.cells| == nvars + 1
    ensures |r.cells| == nvars + 1 && |r.wff| <= |s.wff|
    decreases nvars + 1 - lit
  {
    if lit > nvars then s else UnitFrom(UnitOne(s, lit), nvars, lit + 1)
  }

  /**
    The pure step for variable `lit`: the clauses of its positive literal are
    dropped if it is pure, otherwise those of its negative literal if that is.
   */
  function PureOne(s: State, lit: int): (r: State)
    requires 1 <= lit <= |s.cells|
    ensures |r.cells| == |s.cells| && |r.wff| <= |s.wff|
  {
    if PureLiteral(lit, s.wff) then State(RemoveClauses(s.wff, lit), s.cells[lit - 1 := UnitCell(lit)])
    else if PureLiteral(-lit, s.wff) then State(RemoveClauses(s.wff, -lit), s.cells[lit - 1 := UnitCell(-lit)])
    else s
  }

  /** A pure pass: the pure steps for variables `lit` up to `nvars`, in order. */
  function PureFrom(s: State, nvars: nat, lit: int): (r: State)
    requires 1 <= lit && |s.cells| == nvars + 1
    ensures |r.cells| == nvars + 1 && |r.wff| <= |s.wff|
    decreases nvars + 1 - lit
  {
    if lit > nvars then s else PureFrom(PureOne(s, lit), nvars, lit + 1)
  }

  /** Neither literal of variable `x` is pure in `wff`. */
  predicate NoPure(x: int, wff: seq<Clause>)
  {
    !IsPure(x, wff) && !IsPure(-x, wff)
  }

  /** No variable in 1..n-1 has a pure literal in `wff`. */
  predicate NoPureBelow(n: int, wff: seq<Clause>)
    decreases n
  {
    n <= 1 || (NoPure(n - 1, wff) && NoPureBelow(n - 1, wff))
  }

  lemma {:induction false} NoPureBelowAll(n: int, wff: seq<Clause>)
    requires NoPureBelow(n, wff)
    ensures forall x :: 1 <= x < n ==> NoPure(x, wff)
    decreases n
  {
    if n > 1 {
      NoPureBelowAll(n - 1, wff);
    }
  }

  /** Unit propagation keeps the literals of a formula in range. */
  lemma PropagateInRange(wff: seq<Clause>, lit: int, nvars: nat)
    requires InRange(wff, nvars)
    ensures InRange(Propagate(wff, lit), nvars)
  {
    forall c, z | c in Propagate(wff, lit) && z in c ensures 1 <= Abs(z) <= nvars {
      var d := PropagateOrigin(wff, lit, c);
      StripMembers(d, -lit);
    }
  }

  /** A unit pass keeps the literals of a formula in range. */
  lemma {:induction false} UnitFromInRange(s: State, nvars: nat, lit: int)
    requires 1 <= lit && |s.cells| == nvars + 1 && InRange(s.wff, nvars)
    ensures InRange(UnitFrom(s, nvars, lit).wff, nvars)
    decreases nvars + 1 - lit
  {
    if lit <= nvars {
      PropagateInRange(s.wff, lit, nvars);
      PropagateInRange(s.wff, -lit, nvars);
      UnitFromInRange(UnitOne(s, lit), nvars, lit + 1);
    }
  }

  /** Propagating a literal over another variable keeps a unit clause of `u`. */
  lemma UnitKept(wff: seq<Clause>, l: int, u: int)
    requires HasUnit(wff, u) && 1 <= u && Abs(l) != u
    ensures HasUnit(Propagate(wff, l), u)
  {
    if [u] in wff {
      PropagateKeeps(wff, l, [u]);
      StripAbsent([u], -l);
    } else {
      PropagateKeeps(wff, l, [-u]);
      StripAbsent([-u], -l);
    }
  }

  /** The unit step for a variable with a unit clause drops a clause. */
  lemma UnitOneShrinks(s: State, lit: int)
    requires 1 <= lit <= |s.cells| && HasUnit(s.wff, lit)
    ensures |UnitOne(s, lit).wff| < |s.wff|
  {
    var l := if [lit] in s.wff then lit else -lit;
    assert l in [l] && [l] in s.wff;
    PropagateShrinks(s.wff, l);
  }

  /** The unit step for another variable keeps a unit clause of `u`. */
  lemma UnitOneKeeps(s: State, lit: int, u: int)
    requires 1 <= lit <= |s.cells| && 1 <= u && lit != u && HasUnit(s.wff, u)
    ensures HasUnit(UnitOne(s, lit).wff, u)
  {
    if [lit] in s.wff {
      UnitKept(s.wff, lit, u);
    } else if [-lit] in s.wff {
      UnitKept(s.wff, -lit, u);
    }
  }

  /** A unit pass that reaches a variable with a unit clause drops a clause. */
  lemma {:induction false} UnitFromShrinks(s: State, nvars: nat, lit: int, u: int)
    requires 1 <= lit <= u <= nvars && |s.cells| == nvars + 1 && HasUnit(s.wff, u)
    ensures |UnitFrom(s, nvars, lit).wff| < |s.wff|
    decreases nvars + 1 - lit
  {
    var t := UnitOne(s, lit);
    assert UnitFrom(s, nvars, lit) == UnitFrom(t, nvars, lit + 1);
    if lit == u {
      UnitOneShrinks(s, lit);
    } else {
      UnitOneKeeps(s, lit, u);
      UnitFromShrinks(t, nvars, lit + 1, u);
    }
  }

  /** On a formula whose shortest clause is a unit clause, a unit pass drops a clause. */
  lemma UnitShrinks(s: State, nvars: nat)
    requires InRange(s.wff, nvars) && |s.cells| == nvars + 1
    requires s.wff != [] && FindUnitClause(s.wff)
    ensures |UnitFrom(s, nvars, 1).wff| < |s.wff|
    ensures InRange(UnitFrom(s, nvars, 1).wff, nvars)
  {
    var u := UnitVariable(s.wff, nvars);
    UnitFromShrinks(s, nvars, 1, u);
    UnitFromInRange(s, nvars, 1);
  }

  /**
    The unit phase of `DPLL` runs unit passes while the shortest clause is a
    unit clause, and ends in the `IndexError` exactly when the formula becomes
    empty on the way.
   */
  predicate UnitEmpties(s: State, nvars: nat)
    requires InRange(s.wff, nvars) && |s.cells| == nvars + 1
    decreases |s.wff|
  {
    if s.wff == [] then true
    else if !FindUnitClause(s.wff) then false
    else
      UnitShrinks(s, nvars);
      UnitEmpties(UnitFrom(s, nvars, 1), nvars)
  }

  // ---------------------------------------------------------------------------
  // Backtracking
  // ---------------------------------------------------------------------------

  /** The number of unassigned cells: the measure the recursion of `backtrack` lowers. */
  function Unassigned(cells: seq<Cell>): (n: nat)
    ensures n <= |cells|
  {
    if cells == [] then 0
    else Unassigned(cells[..|cells| - 1]) + (if cells[|cells| - 1].flag == 0 then 1 else 0)
  }

  /** Assigning an unassigned cell lowers the count by one. */
  lemma {:induction false} AssignLowers(cells: seq<Cell>, k: nat, cell: Cell)
    requires k < |cells| && cells[k].flag == 0 && cell.flag == 1
    ensures Unassigned(cells[k := cell]) == Unassigned(cells) - 1
  {
    var n := |cells| - 1;
    if k == n {
      assert cells[k := cell][..n] == cells[..n];
    } else {
      assert cells[k := cell][..n] == cells[..n][k := cell];
      AssignLowers(cells[..n], k, cell);
    }
  }

  /** `k` is the index of the lowest unassigned variable among 1..nvars. */
  ghost predicate FirstFree(cells: seq<Cell>, k: nat, nvars: nat)
  {
    k < nvars && k < |cells| && cells[k].flag == 0 &&
    forall i :: 0 <= i < k ==> cells[i].flag != 0
  }

  /** A model of `wff` that extends `cells` is a model of one of the two propagated formulas. */
  lemma SplitWitness(wff: seq<Clause>, cells: seq<Cell>, v: int, a: seq<Cell>) returns (lit: int)
    requires 1 <= v <= |cells| && cells[v - 1].flag == 0
    requires Extends(a, cells) && Satisfies(wff, a)
    ensures (lit == v || lit == -v) && Extends(a, cells[v - 1 := UnitCell(lit)])
    ensures Satisfies(Propagate(wff, lit), a)
  {
    lit := if a[v - 1].value == 1 then v else -v;
    assert LitTrue(lit, a);
    PropagateForward(wff, lit, a);
  }

  /**
    Splitting on an unassigned variable loses no model: when neither
    propagated formula has one under its extended store, `wff` has none.
   */
  lemma SplitStep(wff: seq<Clause>, cells: seq<Cell>, v: int)
    requires 1 <= v <= |cells| && cells[v - 1].flag == 0
    requires !SatUnder(Propagate(wff, v), cells[v - 1 := UnitCell(v)])
    requires !SatUnder(Propagate(wff, -v), cells[v - 1 := UnitCell(-v)])
    ensures !SatUnder(wff, cells)
  {
    forall a | Extends(a, cells) ensures !Satisfies(wff, a) {
      if Satisfies(wff, a) {
        var lit := SplitWitness(wff, cells, v, a);
      }
    }
  }

  /** The arm of the split that sets `v` true has a model under its store. */
  ghost predicate TrueBranch(wff: seq<Clause>, cells: seq<Cell>, v: int)
    requires 1 <= v <= |cells|
  {
    SatUnder(Propagate(wff, v), cells[v - 1 := UnitCell(v)])
  }

  /**
    A model-complete answer for the propagated formula, under a store that
    records `lit`, is one for the formula before propagation.
   */
  lemma BranchSound(wff: seq<Clause>, cells: seq<Cell>, lit: int, result: seq<Cell>)
    requires 1 <= Abs(lit) <= |cells| && cells[Abs(lit) - 1].flag == 0
    requires Refines(result, cells[Abs(lit) - 1 := UnitCell(lit)])
    requires forall a :: Extends(a, result) ==> Satisfies(Propagate(wff, lit), a)
    ensures Refines(result, cells)
    ensures forall a :: Extends(a, result) ==> Satisfies(wff, a)
  {
    forall a | Extends(a, result) ensures Satisfies(wff, a) {
      assert LitTrue(lit, a);
      PropagateBack(wff, lit, a);
    }
  }

  /** `copy.deepcopy` of the assignment store: a fresh array with the same cells. */
  method CopyStore(assignments: array<Cell>) returns (copy: array<Cell>)
    ensures fresh(copy) && copy[..] == assignments[..]
  {
    copy := new Cell[assignments.Length](i requires 0 <= i < assignments.Length reads assignments => assignments[i]);
  }

  /**
    One arm of `backtrack` after the split variable is recorded in the store:
    unit propagation of `lit` on deep copies of the formula and the store,
    then the recursive call. `cells` is the store before the split.
   */
  method Branch(wff: seq<Clause>, nvars: nat, assignments: array<Cell>, lit: int, ghost cells: seq<Cell>)
    returns (sat: bool, result: seq<Cell>)
    requires assignments.Length == nvars + 1 == |cells| && 1 <= Abs(lit) <= nvars
    requires InRange(wff, nvars) && OverUnassigned(wff, cells) && cells[Abs(lit) - 1].flag == 0
    requires assignments[..] == cells[Abs(lit) - 1 := UnitCell(lit)]
    decreases Unassigned(assignments[..]), 2
    ensures sat <==> SatUnder(Propagate(wff, lit), cells[Abs(lit) - 1 := UnitCell(lit)])
    ensures sat ==> Refines(result, cells[Abs(lit) - 1 := UnitCell(lit)])
    ensures sat ==> Refines(result, cells) && Satisfies(wff, result) &&
                    forall a :: Extends(a, result) ==> Satisfies(wff, a)
    ensures !sat ==> result == []
  {
    var copy := CopyStore(assignments);
    var newWff := UnitPropagate(lit, wff, |wff|, copy);
    assert wff[..|wff|] == wff && wff[|wff|..] == [];
    assert copy[..] == assignments[..] && newWff == Propagate(wff, lit);
    PropagateOver(wff, lit, cells, nvars);
    sat, result := Backtrack(newWff, nvars, copy);
    if sat {
      BranchSound(wff, cells, lit, result);
      assert Extends(result, result);
      ExtendsRefines(result, result, assignments[..]);
    }
  }

  /**
    `backtrack`: an empty formula is satisfied by the store as it stands; a
    formula with an empty clause is unsatisfiable; otherwise the lowest
    unassigned variable is tried true and then false, each time on a deep copy
    of the formula and of the store after unit propagation.

    The answer is exact: `sat` holds iff some completion of the store satisfies
    `wff`, and then every completion of `result` does. The caller's store keeps
    the last value tried for the split variable.
   */
  method Backtrack(wff: seq<Clause>, nvars: nat, assignments: array<Cell>)
    returns (sat: bool, result: seq<Cell>)
    requires assignments.Length == nvars + 1
    requires InRange(wff, nvars) && OverUnassigned(wff, assignments[..])
    modifies assignments
    decreases Unassigned(assignments[..]), 1
    ensures sat ==> Refines(result, old(assignments[..])) && Satisfies(wff, result) &&
                    forall a :: Extends(a, result) ==> Satisfies(wff, a)
    ensures !sat ==> result == [] && !SatUnder(wff, old(assignments[..]))
    ensures wff == [] ==> sat && result == old(assignments[..])
    ensures wff == [] || [] in wff ==> assignments[..] == old(assignments[..])
    ensures wff != [] && [] !in wff ==>
              exists k: nat :: FirstFree(old(assignments[..]), k, nvars) &&
                (TrueBranch(wff, old(assignments[..]), k + 1) ==> sat) &&
                assignments[..] == old(assignments[..])[k := if TrueBranch(wff, old(assignments[..]), k + 1) then Cell(1, 1) else Cell(0, 1)] &&
                (sat ==> result[k] == assignments[k])
  {
    if wff == [] {
      assert Extends(assignments[..], assignments[..]);
      return true, assignments[..];
    }
    if [] in wff {
      forall a | Extends(a, assignments[..]) ensures !Satisfies(wff, a) {
        assert !ClauseTrue([], a);
      }
      return false, [];
    }
    var cells := assignments[..];
    // Some variable of 1..nvars is unassigned: the first literal of the first clause.
    assert wff[0] in wff && wff[0][0] in wff[0];
    ghost var w := Abs(wff[0][0]);
    var v := 1;
    while v <= nvars
      invariant 1 <= v <= w
      invariant forall i :: 0 <= i < v - 1 ==> cells[i].flag != 0
      modifies {}
    {
      if cells[v - 1].flag == 0 {
        break;
      }
      v := v + 1;
    }
    if v > nvars {
      // The for-else branch: every variable assigned. Unreachable, since `w` is not.
      assert false;
      return true, cells;
    }
    assert FirstFree(cells, v - 1, nvars);
    sat, result := Split(wff, nvars, assignments, v);
  }

  /**
    The two branches of `backtrack` on the lowest unassigned variable `v`:
    `v` true first, then `v` false when that fails. The store keeps the last
    value tried.
   */
  method Split(wff: seq<Clause>, nvars: nat, assignments: array<Cell>, v: int)
    returns (sat: bool, result: seq<Cell>)
    requires assignments.Length == nvars + 1 && 1 <= v
    requires InRange(wff, nvars) && OverUnassigned(wff, assignments[..])
    requires FirstFree(assignments[..], v - 1, nvars)
    modifies assignments
    decreases Unassigned(assignments[..]), 0
    ensures sat ==> Refines(result, old(assignments[..])) && Satisfies(wff, result) &&
                    forall a :: Extends(a, result) ==> Satisfies(wff, a)
    ensures !sat ==> result == [] && !SatUnder(wff, old(assignments[..]))
    ensures TrueBranch(wff, old(assignments[..]), v) ==> sat
    ensures assignments[..] == old(assignments[..])[v - 1 := if TrueBranch(wff, old(assignments[..]), v) then Cell(1, 1) else Cell(0, 1)]
    ensures sat ==> result[v - 1] == assignments[v - 1]
  {
    var cells := assignments[..];
    var k := v - 1;
    assert Abs(v) - 1 == k && Abs(-v) - 1 == k;
    assert UnitCell(v) == Cell(1, 1) && UnitCell(-v) == Cell(0, 1);
    AssignLowers(cells, k, Cell(1, 1));
    AssignLowers(cells, k, Cell(0, 1));

    assignments[k] := Cell(1, 1);
    assert assignments[..] == cells[k := Cell(1, 1)];
    sat, result := Branch(wff, nvars, assignments, v, cells);
    if sat {
      return;
    }

    assignments[k] := Cell(0, 1);
    assert assignments[..] == cells[k := Cell(0, 1)];
    sat, result := Branch(wff, nvars, assignments, -v, cells);
    if !sat {
      SplitStep(wff, cells, v);
    }
  }

  // ---------------------------------------------------------------------------
  // DPLL
  // ---------------------------------------------------------------------------

  /**
    `DPLL`: unit propagation while the shortest clause is a unit clause, then
    pure-literal elimination until a pass changes nothing, then `backtrack`.

    Every answer is right: a "satisfiable" answer comes with a store every
    completion of which satisfies the input, an "unsatisfiable" answer means
    the input has no model. The `IndexError` of `findUnitClause` on an empty
    list happens exactly when the unit phase empties the formula
    (`UnitEmpties`): always on the empty formula, never on a non-empty one
    without a unit clause, and only on satisfiable inputs.
   */
  method Dpll(wff0: seq<Clause>, nvars: nat, nclauses: nat) returns (out: Outcome)
    requires nclauses == |wff0| && InRange(wff0, nvars)
    ensures out.IndexError? <==> UnitEmpties(State(wff0, Fresh(nvars)), nvars)
    ensures wff0 == [] ==> out.IndexError?
    ensures wff0 != [] && !FindUnitClause(wff0) ==> out.Returned?
    ensures out.IndexError? ==> Satisfiable(wff0, nvars)
    ensures out.Returned? && out.sat ==>
              |out.assignment| == nvars + 1 && Satisfies(wff0, out.assignment) &&
              forall a :: Extends(a, out.assignment) ==> Satisfies(wff0, a)
    ensures out.Returned? && !out.sat ==> out.assignment == [] && !Satisfiable(wff0, nvars)
  {
    var assignments := new Cell[nvars + 1](_ => Cell(0, 0));
    var wff := wff0;
    InitialReduces(wff0, nvars);
    assert assignments[..] == Fresh(nvars);
    ghost var empties := UnitEmpties(State(wff0, Fresh(nvars)), nvars);

    // Unit propagation.
    while true
      invariant assignments.Length == nvars + 1
      invariant Reduces(wff0, wff, assignments[..], nvars) && |wff| <= |wff0|
      invariant UnitEmpties(State(wff, assignments[..]), nvars) == empties
      decreases |wff|
    {
      if wff == [] {
        // `sorted(wff)[0]` on an empty list.
        EmptyReduces(wff0, assignments[..], nvars);
        return IndexError;
      }
      if !FindUnitClause(wff) {
        break;
      }
      ghost var u := UnitVariable(wff, nvars);
      wff := UnitPass(wff0, wff, nvars, assignments);
    }
    assert !empties;

    // Pure-literal elimination.
    var changed := true;
    while changed
      invariant assignments.Length == nvars + 1
      invariant Reduces(wff0, wff, assignments[..], nvars)
      decreases |wff| + (if changed then 1 else 0)
    {
      wff, changed := PurePass(wff0, wff, nvars, assignments);
      if wff == [] {
        EmptyReduces(wff0, assignments[..], nvars);
        return Returned(true, assignments[..]);
      }
      if [] in wff {
        EmptyClauseReduces(wff0, wff, assignments[..], nvars);
        return Returned(false, []);
      }
    }

    ghost var cells := assignments[..];
    var sat, result := Backtrack(wff, nvars, assignments);
    BacktrackReduces(wff0, wff, cells, nvars, sat, result);
    return Returned(sat, result);
  }

  /**
    One pass of the unit phase: for each variable in 1..nvars, propagate it if
    it is a unit clause, else its negation if that is one. The store only gains
    assignments, and a pass over a formula with a unit clause `[u]` or `[-u]`
    removes at least one clause.
   */
  method UnitPass(ghost wff0: seq<Clause>, wff: seq<Clause>, nvars: nat, assignments: array<Cell>)
    returns (result: seq<Clause>)
    requires assignments.Length == nvars + 1
    requires Reduces(wff0, wff, assignments[..], nvars)
    modifies assignments
    ensures State(result, assignments[..]) == UnitFrom(State(wff, old(assignments[..])), nvars, 1)
    ensures Refines(assignments[..], old(assignments[..]))
    ensures Reduces(wff0, result, assignments[..], nvars)
    ensures (exists u :: 1 <= u <= nvars && HasUnit(wff, u)) ==> |result| < |wff|
  {
    ghost var s0 := State(wff, assignments[..]);
    result := wff;
    var lit := 1;
    while lit <= nvars
      invariant 1 <= lit <= nvars + 1
      invariant Reduces(wff0, result, assignments[..], nvars)
      invariant Refines(assignments[..], s0.cells)
      invariant UnitFrom(State(result, assignments[..]), nvars, lit) == UnitFrom(s0, nvars, 1)
    {
      ghost var before := assignments[..];
      result := UnitAt(wff0, result, nvars, lit, assignments);
      RefinesTrans(assignments[..], before, s0.cells);
      lit := lit + 1;
    }
    if exists u :: 1 <= u <= nvars && HasUnit(wff, u) {
      var u :| 1 <= u <= nvars && HasUnit(wff, u);
      UnitFromShrinks(s0, nvars, 1, u);
    }
  }

  /** The step of the unit pass for variable `lit`. */
  method UnitAt(ghost wff0: seq<Clause>, wff: seq<Clause>, nvars: nat, lit: int, assignments: array<Cell>)
    returns (result: seq<Clause>)
    requires assignments.Length == nvars + 1 && 1 <= lit <= nvars
    requires Reduces(wff0, wff, assignments[..], nvars)
    modifies assignments
    ensures State(result, assignments[..]) == UnitOne(State(wff, old(assignments[..])), lit)
    ensures Refines(assignments[..], old(assignments[..]))
    ensures Reduces(wff0, result, assignments[..], nvars)
  {
    ghost var s := State(wff, assignments[..]);
    var l := if [lit] in wff then lit else if [-lit] in wff then -lit else 0;
    result := wff;
    if l != 0 {
      assert l in [l] && Abs(l) == lit;
      result := Unit(wff0, wff, nvars, l, assignments);
    }
    assert State(result, assignments[..]) == UnitOne(s, lit);
  }

  /**
    One pass of the pure phase: for each variable in 1..nvars, drop the
    clauses of its positive literal if that is pure, else of its negative one
    if that is pure. `changed` reports whether anything was dropped; when
    nothing was, no literal over 1..nvars is pure.
   */
  method PurePass(ghost wff0: seq<Clause>, wff: seq<Clause>, nvars: nat, assignments: array<Cell>)
    returns (result: seq<Clause>, changed: bool)
    requires assignments.Length == nvars + 1
    requires Reduces(wff0, wff, assignments[..], nvars)
    modifies assignments
    ensures State(result, assignments[..]) == PureFrom(State(wff, old(assignments[..])), nvars, 1)
    ensures Refines(assignments[..], old(assignments[..]))
    ensures Reduces(wff0, result, assignments[..], nvars)
    ensures if changed then |result| < |wff| else result == wff
    ensures !changed ==> forall x :: 1 <= x <= nvars ==> NoPure(x, wff)
  {
    ghost var s0 := State(wff, assignments[..]);
    result := wff;
    changed := false;
    var lit := 1;
    while lit <= nvars
      invariant 1 <= lit <= nvars + 1
      invariant Reduces(wff0, result, assignments[..], nvars)
      invariant Refines(assignments[..], s0.cells)
      invariant PureFrom(State(result, assignments[..]), nvars, lit) == PureFrom(s0, nvars, 1)
      invariant if changed then |result| < |wff| else result == wff
      invariant !changed ==> NoPureBelow(lit, wff)
    {
      ghost var before := assignments[..];
      var dropped;
      result, dropped := PureAt(wff0, result, nvars, lit, assignments);
      RefinesTrans(assignments[..], before, s0.cells);
      changed := changed || dropped;
      lit := lit + 1;
    }
    if !changed {
      NoPureBelowAll(lit, wff);
    }
  }

  /** The step of the pure pass for variable `lit`. */
  method PureAt(ghost wff0: seq<Clause>, wff: seq<Clause>, nvars: nat, lit: int, assignments: array<Cell>)
    returns (result: seq<Clause>, dropped: bool)
    requires assignments.Length == nvars + 1 && 1 <= lit <= nvars
    requires Reduces(wff0, wff, assignments[..], nvars)
    modifies assignments
    ensures State(result, assignments[..]) == PureOne(State(wff, old(assignments[..])), lit)
    ensures Refines(assignments[..], old(assignments[..]))
    ensures Reduces(wff0, result, assignments[..], nvars)
    ensures if dropped then |result| < |wff| else result == wff && NoPure(lit, wff)
  {
    ghost var s := State(wff, assignments[..]);
    var l := if PureLiteral(lit, wff) then lit else if PureLiteral(-lit, wff) then -lit else 0;
    result, dropped := wff, false;
    if l != 0 {
      assert Abs(l) == lit;
      result := Pure(wff0, wff, nvars, l, assignments);
      dropped := true;
    }
    assert State(result, assignments[..]) == PureOne(s, lit);
  }

  /**
    One call `unit_propagate(lit, wff, len(wff), assignments)` of the unit
    phase: it records `lit`, propagates it, and drops at least one clause.
   */
  method Unit(ghost wff0: seq<Clause>, wff: seq<Clause>, nvars: nat, lit: int, assignments: array<Cell>)
    returns (result: seq<Clause>)
    requires assignments.Length == nvars + 1
    requires Reduces(wff0, wff, assignments[..], nvars) && [lit] in wff
    modifies assignments
    ensures result == Propagate(wff, lit)
    ensures assignments[..] == old(assignments[..])[Abs(lit) - 1 := UnitCell(lit)]
    ensures old(assignments[Abs(lit) - 1]).flag == 0
    ensures Refines(assignments[..], old(assignments[..]))
    ensures Reduces(wff0, result, assignments[..], nvars) && |result| < |wff|
  {
    ghost var cells := assignments[..];
    UnitStep(wff0, wff, cells, nvars, lit);
    assert lit in [lit];
    PropagateShrinks(wff, lit);
    AssignRefines(cells, Abs(lit) - 1, UnitCell(lit));
    result := UnitPropagate(lit, wff, |wff|, assignments);
    assert wff[..|wff|] == wff && wff[|wff|..] == [];
  }

  /**
    One call `remove_pure_literal(lit, wff, len(wff), assignments)` of the pure
    phase: it records `lit`, drops the clauses containing it, and drops at
    least one clause.
   */
  method Pure(ghost wff0: seq<Clause>, wff: seq<Clause>, nvars: nat, lit: int, assignments: array<Cell>)
    returns (result: seq<Clause>)
    requires assignments.Length == nvars + 1
    requires Reduces(wff0, wff, assignments[..], nvars) && IsPure(lit, wff)
    modifies assignments
    ensures result == RemoveClauses(wff, lit)
    ensures assignments[..] == old(assignments[..])[Abs(lit) - 1 := UnitCell(lit)]
    ensures old(assignments[Abs(lit) - 1]).flag == 0
    ensures Refines(assignments[..], old(assignments[..]))
    ensures Reduces(wff0, result, assignments[..], nvars) && |result| < |wff|
  {
    ghost var cells := assignments[..];
    PureStep(wff0, wff, cells, nvars, lit);
    RemoveShrinks(wff, lit);
    AssignRefines(cells, Abs(lit) - 1, UnitCell(lit));
    result := RemovePureLiteral(lit, wff, |wff|, assignments);
    assert wff[..|wff|] == wff && wff[|wff|..] == [];
  }
}
