/**
  Formulas in conjunctive normal form and what it means for an assignment to
  satisfy one.

  A literal is a nonzero integer: `v` asserts variable `v`, `-v` its negation.
  The solver's assignment store is a list of cells `[value, assigned]`, where
  variable `v` lives at index `v - 1`; this module reads such a list as a
  (possibly partial) truth assignment.
 */
module Cnf {

  /** A 0/1 integer, the only values the source ever stores. */
  type Bit = b: int | 0 <= b <= 1

  type Clause = seq<int>

  /** One entry of the assignment store: the pair `[value, assigned]`. */
  datatype Cell = Cell(value: Bit, flag: Bit)

  function Abs(x: int): nat
  {
    if x < 0 then -x else x
  }

  /** The value a literal asks its variable to take: 1 for `v`, 0 for `-v`. */
  function Polarity(lit: int): Bit
  {
    if lit > 0 then 1 else 0
  }

  /** The cell a literal's polarity is written to. */
  function UnitCell(lit: int): Cell
  {
    Cell(Polarity(lit), 1)
  }

  predicate LitTrue(lit: int, a: seq<Cell>)
  {
    lit != 0 && Abs(lit) <= |a| && a[Abs(lit) - 1].value == Polarity(lit)
  }

  predicate ClauseTrue(c: Clause, a: seq<Cell>)
  {
    exists lit :: lit in c && LitTrue(lit, a)
  }

  predicate Satisfies(wff: seq<Clause>, a: seq<Cell>)
  {
    forall c :: c in wff ==> ClauseTrue(c, a)
  }

  /** `a` agrees with `cells` on every variable `cells` has assigned. */
  predicate Extends(a: seq<Cell>, cells: seq<Cell>)
  {
    |a| == |cells| &&
    forall i :: 0 <= i < |cells| && cells[i].flag == 1 ==> a[i].value == cells[i].value
  }

  /** `later` keeps every cell that `cells` has assigned; it may assign more. */
  predicate Refines(later: seq<Cell>, cells: seq<Cell>)
  {
    |later| == |cells| &&
    forall i :: 0 <= i < |cells| && cells[i].flag == 1 ==> later[i] == cells[i]
  }

  /** Assigning a cell that was unassigned refines the store. */
  lemma AssignRefines(cells: seq<Cell>, k: int, c: Cell)
    requires 0 <= k < |cells| && cells[k].flag == 0
    ensures Refines(cells[k := c], cells)
  {
  }

  /** Refinement is transitive. */
  lemma RefinesTrans(c: seq<Cell>, b: seq<Cell>, a: seq<Cell>)
    requires Refines(c, b) && Refines(b, a)
    ensures Refines(c, a)
  {
  }

  /** A completion of a refinement is a completion of the original. */
  lemma ExtendsRefines(a: seq<Cell>, later: seq<Cell>, cells: seq<Cell>)
    requires Extends(a, later) && Refines(later, cells)
    ensures Extends(a, cells)
  {
  }

  /** Some completion of the partial assignment `cells` satisfies `wff`. */
  ghost predicate SatUnder(wff: seq<Clause>, cells: seq<Cell>)
  {
    exists a :: Extends(a, cells) && Satisfies(wff, a)
  }

  /** Some assignment to variables 1..nvars (a store of nvars+1 cells) satisfies `wff`. */
  ghost predicate Satisfiable(wff: seq<Clause>, nvars: nat)
  {
    exists a: seq<Cell> :: |a| == nvars + 1 && Satisfies(wff, a)
  }

  /** Every literal names a variable in 1..nvars. */
  predicate InRange(wff: seq<Clause>, nvars: nat)
  {
    forall c, lit :: c in wff && lit in c ==> 1 <= Abs(lit) <= nvars
  }

  /** Every literal left in `wff` names a variable the store has not assigned. */
  predicate OverUnassigned(wff: seq<Clause>, cells: seq<Cell>)
  {
    forall c, lit :: c in wff && lit in c ==> 1 <= Abs(lit) <= |cells| && cells[Abs(lit) - 1].flag == 0
  }

  /** A literal and its negation are never both true. */
  lemma NotBothTrue(lit: int, a: seq<Cell>)
    ensures !(LitTrue(lit, a) && LitTrue(-lit, a))
  {
  }

  /** Changing the value of one cell does not affect literals over other variables. */
  lemma LitTrueElsewhere(lit: int, a: seq<Cell>, k: nat, cell: Cell)
    requires k < |a| && Abs(lit) != k + 1
    ensures LitTrue(lit, a[k := cell]) <==> LitTrue(lit, a)
  {
  }
}
