/**
  The formula simplifier of the DPLL solver: recording a literal in the
  assignment store, unit propagation, the pure-literal test, removal of the
  clauses a pure literal satisfies, and the unit-clause test.

  The source edits the formula list in place (`pop`, `remove`); here each
  operation is a method whose loop performs the same edits on a local copy and
  returns it, because every caller either rebinds its formula to the returned
  list or hands over a fresh deep copy.
 */
module Simplifier {
  import opened Cnf

  // ---------------------------------------------------------------------------
  // Reference definitions
  // ---------------------------------------------------------------------------

  /** `c` with every occurrence of `x` deleted, the other literals kept in order. */
  function Strip(c: Clause, x: int): (r: Clause)
    ensures |r| <= |c|
  {
    if c == [] then []
    else (if c[0] == x then [] else [c[0]]) + Strip(c[1..], x)
  }

  /** Stripping `x` deletes `x` and keeps every other literal. */
  lemma {:induction false} StripMembers(c: Clause, x: int)
    ensures forall z :: z in Strip(c, x) <==> z in c && z != x
  {
    if c != [] {
      StripMembers(c[1..], x);
      assert forall z :: z in c <==> z == c[0] || z in c[1..];
    }
  }

  /**
    What unit propagation of `lit` leaves of `wff`: the clauses that do not
    contain `lit`, in their original order, each with `-lit` stripped.
   */
  function Propagate(wff: seq<Clause>, lit: int): (r: seq<Clause>)
    ensures |r| <= |wff|
  {
    if wff == [] then []
    else
      var init, last := wff[..|wff| - 1], wff[|wff| - 1];
      assert wff == init + [last];
      Propagate(init, lit) + (if lit in last then [] else [Strip(last, -lit)])
  }

  /** The clauses of `wff` that do not contain `lit`, unchanged and in order. */
  function RemoveClauses(wff: seq<Clause>, lit: int): (r: seq<Clause>)
    ensures |r| <= |wff|
  {
    if wff == [] then []
    else
      var init, last := wff[..|wff| - 1], wff[|wff| - 1];
      assert wff == init + [last];
      RemoveClauses(init, lit) + (if lit in last then [] else [last])
  }

  /** `lit` occurs somewhere in `wff` and its negation nowhere. */
  predicate IsPure(lit: int, wff: seq<Clause>)
  {
    (exists c :: c in wff && lit in c) && forall c :: c in wff ==> -lit !in c
  }

  /** Each clause of `wff` with `x` stripped. */
  function StripAll(wff: seq<Clause>, x: int): (r: seq<Clause>)
    ensures |r| == |wff|
    ensures forall i :: 0 <= i < |wff| ==> r[i] == Strip(wff[i], x)
  {
    if wff == [] then [] else StripAll(wff[..|wff| - 1], x) + [Strip(wff[|wff| - 1], x)]
  }

  /** Every clause unit propagation leaves is a stripped input clause without `lit`. */
  lemma {:induction false} PropagateOrigin(wff: seq<Clause>, lit: int, c: Clause) returns (d: Clause)
    requires c in Propagate(wff, lit)
    ensures d in wff && lit !in d && c == Strip(d, -lit)
  {
    var init, last := wff[..|wff| - 1], wff[|wff| - 1];
    assert wff == init + [last];
    if c in Propagate(init, lit) {
      d := PropagateOrigin(init, lit, c);
    } else {
      d := last;
    }
  }

  /** Every input clause without `lit` survives unit propagation, stripped. */
  lemma {:induction false} PropagateKeeps(wff: seq<Clause>, lit: int, d: Clause)
    requires d in wff && lit !in d
    ensures Strip(d, -lit) in Propagate(wff, lit)
  {
    var init, last := wff[..|wff| - 1], wff[|wff| - 1];
    assert wff == init + [last];
    if d != last {
      assert d in init;
      PropagateKeeps(init, lit, d);
    }
  }

  /** No clause left by unit propagation mentions `lit` or `-lit`. */
  lemma PropagateClears(wff: seq<Clause>, lit: int, c: Clause)
    requires c in Propagate(wff, lit)
    ensures lit !in c && -lit !in c
  {
    var d := PropagateOrigin(wff, lit, c);
    StripMembers(d, -lit);
  }

  /** Pure-literal removal keeps exactly the clauses without `lit`. */
  lemma {:induction false} RemoveMembers(wff: seq<Clause>, lit: int)
    ensures forall c :: c in RemoveClauses(wff, lit) <==> c in wff && lit !in c
  {
    if wff != [] {
      var init, last := wff[..|wff| - 1], wff[|wff| - 1];
      assert wff == init + [last];
      RemoveMembers(init, lit);
    }
  }

  /**
    The scan of `unit_propagate` has handled `j` input clauses, which now occupy
    positions `..i` of `result`; the rest of `result` is the untouched input.
   */
  ghost predicate PropagatedUpTo(wff: seq<Clause>, lit: int, j: nat, i: nat, result: seq<Clause>)
  {
    j <= |wff| && i == |Propagate(wff[..j], lit)| && result == Propagate(wff[..j], lit) + wff[j..]
  }

  /** Position `i` of the scan holds input clause `j`. */
  lemma PropagatedAt(wff: seq<Clause>, lit: int, j: nat, i: nat, result: seq<Clause>)
    requires PropagatedUpTo(wff, lit, j, i, result) && j < |wff|
    ensures i < |result| && result[i] == wff[j]
  {
  }

  /** Popping clause `j`, which contains `lit`. */
  lemma PropagatePop(wff: seq<Clause>, lit: int, j: nat, i: nat, result: seq<Clause>)
    requires PropagatedUpTo(wff, lit, j, i, result) && j < |wff| && lit in wff[j]
    ensures i < |result| && result[i] == wff[j]
    ensures PropagatedUpTo(wff, lit, j + 1, i, result[..i] + result[i + 1..])
  {
    assert wff[..j + 1][..j] == wff[..j];
    assert wff[j..] == [wff[j]] + wff[j + 1..];
    assert result[i + 1..] == wff[j + 1..];
  }

  /** Replacing clause `j`, which lacks `lit`, by its stripped copy `c`. */
  lemma PropagateKeep(wff: seq<Clause>, lit: int, j: nat, i: nat, result: seq<Clause>, c: Clause)
    requires PropagatedUpTo(wff, lit, j, i, result) && j < |wff| && lit !in wff[j]
    requires c == Strip(wff[j], -lit)
    ensures PropagatedUpTo(wff, lit, j + 1, i + 1, result[i := c])
  {
    assert wff[..j + 1][..j] == wff[..j];
    assert wff[j..] == [wff[j]] + wff[j + 1..];
    assert result[i := c] == Propagate(wff[..j], lit) + [c] + wff[j + 1..];
  }

  /** Leaving clause `j`, which mentions neither `lit` nor `-lit`, as it is. */
  lemma PropagateSkip(wff: seq<Clause>, lit: int, j: nat, i: nat, result: seq<Clause>)
    requires PropagatedUpTo(wff, lit, j, i, result) && j < |wff| && lit !in wff[j] && -lit !in wff[j]
    ensures PropagatedUpTo(wff, lit, j + 1, i + 1, result)
  {
    StripAbsent(wff[j], -lit);
    PropagateKeep(wff, lit, j, i, result, wff[j]);
    assert result[i := wff[j]] == result;
  }

  /** The scan of `remove_pure_literal`, as for `PropagatedUpTo`. */
  ghost predicate RemovedUpTo(wff: seq<Clause>, lit: int, j: nat, i: nat, result: seq<Clause>)
  {
    j <= |wff| && i == |RemoveClauses(wff[..j], lit)| && result == RemoveClauses(wff[..j], lit) + wff[j..]
  }

  lemma RemovedAt(wff: seq<Clause>, lit: int, j: nat, i: nat, result: seq<Clause>)
    requires RemovedUpTo(wff, lit, j, i, result) && j < |wff|
    ensures i < |result| && result[i] == wff[j]
  {
  }

  lemma RemovePop(wff: seq<Clause>, lit: int, j: nat, i: nat, result: seq<Clause>)
    requires RemovedUpTo(wff, lit, j, i, result) && j < |wff| && lit in wff[j]
    ensures i < |result| && result[i] == wff[j]
    ensures RemovedUpTo(wff, lit, j + 1, i, result[..i] + result[i + 1..])
  {
    assert wff[..j + 1][..j] == wff[..j];
    assert wff[j..] == [wff[j]] + wff[j + 1..];
    assert result[i + 1..] == wff[j + 1..];
  }

  lemma RemoveKeep(wff: seq<Clause>, lit: int, j: nat, i: nat, result: seq<Clause>)
    requires RemovedUpTo(wff, lit, j, i, result) && j < |wff| && lit !in wff[j]
    ensures i < |result| && result[i] == wff[j]
    ensures RemovedUpTo(wff, lit, j + 1, i + 1, result)
  {
    assert wff[..j + 1][..j] == wff[..j];
    assert wff[j..] == [wff[j]] + wff[j + 1..];
  }

  /** Index of the first occurrence of `x` in `c`. */
  function FirstIndex(c: Clause, x: int): (i: nat)
    requires x in c
    ensures i < |c| && c[i] == x && x !in c[..i]
  {
    if c[0] == x then 0
    else
      assert x in c[1..];
      var j := FirstIndex(c[1..], x);
      assert c[..j + 1] == [c[0]] + c[1..][..j];
      j + 1
  }

  /** Python's `list.remove(x)`: deletes the first occurrence of `x`. */
  function RemoveFirst(c: Clause, x: int): (r: Clause)
    requires x in c
    ensures |r| == |c| - 1
    ensures multiset(r) == multiset(c) - multiset{x}
  {
    var i := FirstIndex(c, x);
    assert c == c[..i] + [c[i]] + c[i + 1..];
    c[..i] + c[i + 1..]
  }

  // ---------------------------------------------------------------------------
  // Lemmas about the reference definitions
  // ---------------------------------------------------------------------------

  lemma {:induction false} StripAppend(c: Clause, d: Clause, x: int)
    ensures Strip(c + d, x) == Strip(c, x) + Strip(d, x)
  {
    if c == [] {
      assert c + d == d;
    } else {
      assert (c + d)[1..] == c[1..] + d;
      StripAppend(c[1..], d, x);
    }
  }

  /** Deleting one occurrence of `x` does not change what stripping `x` leaves. */
  lemma StripRemoveFirst(c: Clause, x: int)
    requires x in c
    ensures Strip(RemoveFirst(c, x), x) == Strip(c, x)
  {
    var i := FirstIndex(c, x);
    assert c == c[..i] + ([c[i]] + c[i + 1..]);
    StripAppend(c[..i], [c[i]] + c[i + 1..], x);
    StripAppend([c[i]], c[i + 1..], x);
    StripAppend(c[..i], c[i + 1..], x);
  }

  /** Stripping a literal that does not occur leaves the clause as it was. */
  lemma {:induction false} StripAbsent(c: Clause, x: int)
    requires x !in c
    ensures Strip(c, x) == c
  {
    if c != [] {
      assert x !in c[1..];
      StripAbsent(c[1..], x);
    }
  }

  /** Unit propagation empties a clause exactly when it held nothing but `-lit`. */
  lemma StripEmpty(c: Clause, x: int)
    ensures Strip(c, x) == [] <==> forall z :: z in c ==> z == x
  {
    StripMembers(c, x);
    if Strip(c, x) != [] {
      var z := Strip(c, x)[0];
      assert z in Strip(c, x);
      assert z in c && z != x;
    }
  }

  /**
    Unit propagation is pure-literal removal followed by stripping `-lit` from
    every survivor: so the result is, in order, exactly the clauses without
    `lit`, each with `-lit` deleted.
   */
  lemma {:induction false} PropagateIsRemoveThenStrip(wff: seq<Clause>, lit: int)
    ensures Propagate(wff, lit) == StripAll(RemoveClauses(wff, lit), -lit)
  {
    if wff != [] {
      var init, last := wff[..|wff| - 1], wff[|wff| - 1];
      PropagateIsRemoveThenStrip(init, lit);
      var rest := RemoveClauses(init, lit);
      if lit !in last {
        assert (rest + [last])[..|rest + [last]| - 1] == rest;
      }
    }
  }

  /** For a pure literal, removing its clauses is the same as propagating it. */
  lemma {:induction false} RemoveIsPropagateWhenPure(wff: seq<Clause>, lit: int)
    requires forall i :: 0 <= i < |wff| ==> -lit !in wff[i]
    ensures RemoveClauses(wff, lit) == Propagate(wff, lit)
  {
    if wff != [] {
      var init, last := wff[..|wff| - 1], wff[|wff| - 1];
      RemoveIsPropagateWhenPure(init, lit);
      StripAbsent(last, -lit);
    }
  }

  /** A literal that occurs in `wff` removes at least one clause. */
  lemma {:induction false} PropagateShrinks(wff: seq<Clause>, lit: int)
    requires exists c :: c in wff && lit in c
    ensures |Propagate(wff, lit)| < |wff|
  {
    var init, last := wff[..|wff| - 1], wff[|wff| - 1];
    assert wff == init + [last];
    if lit !in last {
      var c :| c in wff && lit in c;
      assert c in init;
      PropagateShrinks(init, lit);
    }
  }

  lemma {:induction false} RemoveShrinks(wff: seq<Clause>, lit: int)
    requires exists c :: c in wff && lit in c
    ensures |RemoveClauses(wff, lit)| < |wff|
  {
    var init, last := wff[..|wff| - 1], wff[|wff| - 1];
    assert wff == init + [last];
    if lit !in last {
      var c :| c in wff && lit in c;
      assert c in init;
      RemoveShrinks(init, lit);
    }
  }

  /** If `lit` holds, propagating it keeps every satisfied clause satisfied. */
  lemma PropagateForward(wff: seq<Clause>, lit: int, a: seq<Cell>)
    requires LitTrue(lit, a) && Satisfies(wff, a)
    ensures Satisfies(Propagate(wff, lit), a)
  {
    forall c | c in Propagate(wff, lit) ensures ClauseTrue(c, a) {
      var d := PropagateOrigin(wff, lit, c);
      assert ClauseTrue(d, a);
      assert !LitTrue(-lit, a) by { NotBothTrue(lit, a); }
      StripKeepsTrue(d, -lit, a);
    }
  }

  /** Deleting a false literal from a true clause leaves it true. */
  lemma StripKeepsTrue(d: Clause, x: int, a: seq<Cell>)
    requires ClauseTrue(d, a) && !LitTrue(x, a)
    ensures ClauseTrue(Strip(d, x), a)
  {
    var z :| z in d && LitTrue(z, a);
    StripMembers(d, x);
    assert z in Strip(d, x);
  }

  /** A clause whose stripped copy is true is true. */
  lemma StripBack(d: Clause, x: int, a: seq<Cell>)
    requires ClauseTrue(Strip(d, x), a)
    ensures ClauseTrue(d, a)
  {
    var z :| z in Strip(d, x) && LitTrue(z, a);
    StripMembers(d, x);
    assert z in d;
  }

  /** If `lit` holds, an assignment satisfying the propagated formula satisfies the original. */
  lemma PropagateBack(wff: seq<Clause>, lit: int, a: seq<Cell>)
    requires LitTrue(lit, a) && Satisfies(Propagate(wff, lit), a)
    ensures Satisfies(wff, a)
  {
    forall d | d in wff ensures ClauseTrue(d, a) {
      if lit in d {
        assert LitTrue(lit, a);
      } else {
        PropagateKeeps(wff, lit, d);
        StripBack(d, -lit, a);
      }
    }
  }

  // ---------------------------------------------------------------------------
  // The operations
  // ---------------------------------------------------------------------------

  /** `set_assignment`: records the polarity of `lit` at index |lit|-1. */
  method SetAssignment(lit: int, assignments: array<Cell>)
    requires lit != 0 && Abs(lit) <= assignments.Length
    modifies assignments
    ensures assignments[..] == old(assignments[..])[Abs(lit) - 1 := Cell(Polarity(lit), 1)]
  {
    if lit > 0 {
      assignments[Abs(lit) - 1] := Cell(1, 1);
    } else {
      assignments[Abs(lit) - 1] := Cell(0, 1);
    }
  }

  /**
    The inner loop of `unit_propagate`: `list.remove(x)` repeated while `x`
    is still in the clause.
   */
  method RemoveAll(clause: Clause, x: int) returns (c: Clause)
    ensures c == Strip(clause, x)
  {
    c := clause;
    while x in c
      invariant Strip(c, x) == Strip(clause, x)
      decreases |c|
    {
      StripRemoveFirst(c, x);
      c := RemoveFirst(c, x);
    }
    StripAbsent(c, x);
  }

  /**
    `unit_propagate`: records `lit`, then scans the first `nclauses` clauses,
    popping those that contain `lit` and deleting every `-lit` from the others.
   */
  method UnitPropagate(lit: int, wff: seq<Clause>, nclauses: nat, assignments: array<Cell>)
    returns (result: seq<Clause>)
    requires lit != 0 && Abs(lit) <= assignments.Length
    requires nclauses <= |wff|
    modifies assignments
    ensures assignments[..] == old(assignments[..])[Abs(lit) - 1 := UnitCell(lit)]
    ensures result == Propagate(wff[..nclauses], lit) + wff[nclauses..]
  {
    var i := 0;
    SetAssignment(lit, assignments);
    result := wff;
    var n := nclauses;
    ghost var j := 0;
    while i < n
      invariant j <= nclauses && n + j == nclauses + i
      invariant PropagatedUpTo(wff, lit, j, i, result)
      modifies {}
    {
      var popped;
      result, popped := PropagateClause(wff, lit, j, i, result);
      if popped {
        n := n - 1;
      } else {
        i := i + 1;
      }
      j := j + 1;
    }
    assert wff[..nclauses] == wff[..j];
  }

  /**
    One step of the scan of `unit_propagate` at position `i`: the clause is
    popped when it contains `lit`, and otherwise loses every `-lit`.
   */
  method PropagateClause(ghost wff: seq<Clause>, lit: int, ghost j: nat, i: nat, result: seq<Clause>)
    returns (next: seq<Clause>, popped: bool)
    requires PropagatedUpTo(wff, lit, j, i, result) && j < |wff|
    ensures PropagatedUpTo(wff, lit, j + 1, if popped then i else i + 1, next)
    ensures popped <==> lit in wff[j]
  {
    PropagatedAt(wff, lit, j, i, result);
    if lit in result[i] {
      PropagatePop(wff, lit, j, i, result);
      return result[..i] + result[i + 1..], true;
    } else if -lit in result[i] {
      var c := RemoveAll(result[i], -lit);
      PropagateKeep(wff, lit, j, i, result, c);
      return result[i := c], false;
    } else {
      PropagateSkip(wff, lit, j, i, result);
      return result, false;
    }
  }

  /** `pure_literal`: the clause-by-clause scan, with the flag `found` carried along. */
  function PureScan(lit: int, wff: seq<Clause>, found: bool): (r: bool)
    ensures r <==> (found || exists c :: c in wff && lit in c) && forall c :: c in wff ==> -lit !in c
  {
    if wff == [] then found
    else
      var found' := found || lit in wff[0];
      assert wff[0] in wff;
      if -lit in wff[0] then false
      else
        assert forall c :: c in wff <==> c == wff[0] || c in wff[1..];
        PureScan(lit, wff[1..], found')
  }

  /** `pure_literal`: `lit` is pure in `wff`; an empty formula has no pure literal. */
  function PureLiteral(lit: int, wff: seq<Clause>): (r: bool)
    ensures r <==> IsPure(lit, wff)
  {
    PureScan(lit, wff, false)
  }

  /**
    `remove_pure_literal`: records `lit`, then pops every clause among the first
    `nclauses` that contains it; surviving clauses are not touched.
   */
  method RemovePureLiteral(lit: int, wff: seq<Clause>, nclauses: nat, assignments: array<Cell>)
    returns (result: seq<Clause>)
    requires lit != 0 && Abs(lit) <= assignments.Length
    requires nclauses <= |wff|
    modifies assignments
    ensures assignments[..] == old(assignments[..])[Abs(lit) - 1 := UnitCell(lit)]
    ensures result == RemoveClauses(wff[..nclauses], lit) + wff[nclauses..]
  {
    var i := 0;
    SetAssignment(lit, assignments);
    result := wff;
    var n := nclauses;
    ghost var j := 0;
    while i < n
      invariant j <= nclauses && n - i == nclauses - j
      invariant RemovedUpTo(wff, lit, j, i, result)
      modifies {}
    {
      RemovedAt(wff, lit, j, i, result);
      if lit in result[i] {
        RemovePop(wff, lit, j, i, result);
        result := result[..i] + result[i + 1..];
        n := n - 1;
      } else {
        RemoveKeep(wff, lit, j, i, result);
        i := i + 1;
      }
      j := j + 1;
    }
    assert wff[..nclauses] == wff[..j];
  }

  /** The length of a shortest clause. */
  function MinLength(wff: seq<Clause>): (m: nat)
    requires wff != []
    ensures exists c :: c in wff && |c| == m
    ensures forall c :: c in wff ==> m <= |c|
  {
    if |wff| == 1 then |wff[0]|
    else
      var m := MinLength(wff[1..]);
      assert forall c :: c in wff ==> c == wff[0] || c in wff[1..];
      if |wff[0]| <= m then |wff[0]| else m
  }

  /**
    `findUnitClause`: sorts the clauses by length and tests the first, so it
    answers whether the shortest clause has length 1. An empty clause therefore
    hides any unit clause. The source indexes the sorted list, so it needs a
    nonempty formula.
   */
  function FindUnitClause(wff: seq<Clause>): (r: bool)
    requires wff != []
    ensures r <==> (exists c :: c in wff && |c| == 1) && [] !in wff
  {
    MinLength(wff) == 1
  }
}
