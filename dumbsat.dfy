/**
  The brute-force checker the DPLL solver is compared against: `check` counts
  through every assignment of 0/1 values to variables 1..Nvars, as a binary
  counter held in `Assignment[1..Nvars+1]` with `Assignment[Nvars+1]` as the
  overflow bit, and stops at the first assignment that satisfies the formula.

  Variable `v` is read from `Assignment[v]` (index 0 is unused). A run that
  starts from a counter value `start` examines the values `start`,
  `start + 1`, ... up to the overflow.
 */
module DumbSat {
  import opened Cnf

  // ---------------------------------------------------------------------------
  // The counter
  // ---------------------------------------------------------------------------

  function Pow2(n: nat): (p: nat)
    ensures p >= 1
  {
    if n == 0 then 1 else 2 * Pow2(n - 1)
  }

  /** The number a bit list stands for, least significant bit first. */
  function Val(s: seq<Bit>): nat
  {
    if s == [] then 0 else s[0] + 2 * Val(s[1..])
  }

  /**
    The increment of lines 56-60: clear the leading 1 bits and set the first 0
    bit; a list of 1 bits wraps around to all 0 bits.
   */
  function Inc(s: seq<Bit>): (r: seq<Bit>)
    ensures |r| == |s|
  {
    if s == [] then []
    else if s[0] == 0 then [1] + s[1..]
    else [0] + Inc(s[1..])
  }

  function Zeros(n: nat): (r: seq<Bit>)
    ensures |r| == n && forall i :: 0 <= i < n ==> r[i] == 0
  {
    seq(n, _ => 0)
  }

  /** `n` bits stand for a number below 2^n. */
  lemma {:induction false} ValBound(s: seq<Bit>)
    ensures Val(s) < Pow2(|s|)
  {
    if s != [] {
      ValBound(s[1..]);
    }
  }

  /** Incrementing a list with a 0 bit in it adds one to its value. */
  lemma {:induction false} ValInc(s: seq<Bit>)
    requires 0 in s
    ensures Val(Inc(s)) == Val(s) + 1
  {
    if s[0] != 0 {
      assert 0 in s[1..];
      ValInc(s[1..]);
      assert Inc(s)[1..] == Inc(s[1..]);
    } else {
      assert Inc(s)[1..] == s[1..];
    }
  }

  /** Incrementing a list of 1 bits gives the list of 0 bits. */
  lemma {:induction false} IncWraps(s: seq<Bit>)
    requires 0 !in s
    ensures Inc(s) == Zeros(|s|)
  {
    if s != [] {
      assert s[0] in s && 0 !in s[1..];
      IncWraps(s[1..]);
    }
  }

  /** Incrementing passes over leading 1 bits, clearing them. */
  lemma {:induction false} IncOnes(s: seq<Bit>, m: nat)
    requires m <= |s| && forall k :: 0 <= k < m ==> s[k] == 1
    ensures Inc(s) == Zeros(m) + Inc(s[m..])
  {
    if m > 0 {
      IncOnes(s[1..], m - 1);
      assert s[1..][m - 1..] == s[m..];
    }
  }

  /** Two lists of one length with one value are the same list. */
  lemma {:induction false} ValInjective(b: seq<Bit>, c: seq<Bit>)
    requires |b| == |c| && Val(b) == Val(c)
    ensures b == c
  {
    if b != [] {
      assert b[0] == Val(b) % 2 && c[0] == Val(c) % 2;
      ValInjective(b[1..], c[1..]);
      assert b == [b[0]] + b[1..] && c == [c[0]] + c[1..];
    }
  }

  /** A new most significant bit adds its weight. */
  lemma {:induction false} ValSnoc(s: seq<Bit>, x: Bit)
    ensures Val(s + [x]) == Val(s) + Pow2(|s|) * x
  {
    if s != [] {
      assert (s + [x])[1..] == s[1..] + [x];
      ValSnoc(s[1..], x);
    }
  }

  /** Only the list of 0 bits stands for zero. */
  lemma {:induction false} ValZero(s: seq<Bit>)
    requires Val(s) == 0
    ensures s == Zeros(|s|)
  {
    if s != [] {
      ValZero(s[1..]);
    }
  }

  /** The list of 0 bits stands for zero. */
  lemma {:induction false} ValZeros(n: nat)
    ensures Val(Zeros(n)) == 0
  {
    if n > 0 {
      ValZeros(n - 1);
      assert Zeros(n)[1..] == Zeros(n - 1);
    }
  }

  // ---------------------------------------------------------------------------
  // What the checker tests
  // ---------------------------------------------------------------------------

  /** Bits for variables 1..n read as a store of assigned cells. */
  function AsCells(b: seq<Bit>): (a: seq<Cell>)
    ensures |a| == |b| && forall i :: 0 <= i < |b| ==> a[i] == Cell(b[i], 1)
  {
    seq(|b|, i requires 0 <= i < |b| => Cell(b[i], 1))
  }

  /**
    What `check` accepts an assignment for: at least one clause is examined
    and every examined clause has a true literal. With no clauses examined the
    flag is never set.
   */
  predicate Accepts(wff: seq<Clause>, nclauses: nat, b: seq<Bit>)
    requires nclauses <= |wff|
  {
    nclauses > 0 && Satisfies(wff[..nclauses], AsCells(b))
  }

  /** No assignment of `nvars` bits with a value in [from, to) is accepted. */
  ghost predicate Rejected(wff: seq<Clause>, nclauses: nat, nvars: nat, from: nat, to: nat)
    requires nclauses <= |wff|
  {
    forall b: seq<Bit> :: |b| == nvars && from <= Val(b) < to ==> !Accepts(wff, nclauses, b)
  }

  /** `low` holds the first `n` bits of `c`. */
  lemma LowBits(c: seq<Bit>, low: seq<Bit>, n: nat)
    requires |c| == n + 1 && |low| == n
    requires forall k :: 0 <= k < n ==> low[k] == c[k]
    ensures low == c[..n]
  {
  }

  /** Some assignment of `nvars` bits with a value of at least `from` is accepted. */
  ghost predicate AcceptedFrom(wff: seq<Clause>, nclauses: nat, nvars: nat, from: nat)
    requires nclauses <= |wff|
  {
    exists b: seq<Bit> :: |b| == nvars && from <= Val(b) && Accepts(wff, nclauses, b)
  }

  /** A counter below the overflow holding an accepted assignment is a witness. */
  lemma Found(wff: seq<Clause>, nclauses: nat, nvars: nat, from: nat, c: seq<Bit>)
    requires nclauses <= |wff| && |c| == nvars + 1 && c[nvars] == 0
    requires from <= Val(c) && Accepts(wff, nclauses, c[..nvars])
    ensures Val(c[..nvars]) == Val(c)
    ensures AcceptedFrom(wff, nclauses, nvars, from)
  {
    assert c == c[..nvars] + [0];
    ValSnoc(c[..nvars], 0);
  }

  /** Once the counter overflows with everything below it rejected, nothing is accepted. */
  lemma Exhausted(wff: seq<Clause>, nclauses: nat, nvars: nat, from: nat, c: seq<Bit>)
    requires nclauses <= |wff| && |c| == nvars + 1 && c[nvars] == 1
    requires Rejected(wff, nclauses, nvars, from, Val(c))
    ensures !AcceptedFrom(wff, nclauses, nvars, from)
  {
    assert c == c[..nvars] + [1];
    ValSnoc(c[..nvars], 1);
    forall b: seq<Bit> | |b| == nvars && from <= Val(b)
      ensures !Accepts(wff, nclauses, b)
    {
      ValBound(b);
    }
  }

  /** A counter that has just reached 2^nvars has its low bits clear. */
  lemma Overflowed(c: seq<Bit>, nvars: nat)
    requires |c| == nvars + 1 && c[nvars] == 1 && Val(c) <= Pow2(nvars)
    ensures c[..nvars] == Zeros(nvars)
  {
    assert c == c[..nvars] + [1];
    ValSnoc(c[..nvars], 1);
    ValZero(c[..nvars]);
  }

  /** Counting from zero, acceptance is satisfiability of the examined clauses. */
  lemma AcceptedFromZero(wff: seq<Clause>, nclauses: nat, nvars: nat)
    requires nclauses <= |wff| && InRange(wff[..nclauses], nvars)
    ensures AcceptedFrom(wff, nclauses, nvars, 0) <==> nclauses > 0 && Satisfiable(wff[..nclauses], nvars)
  {
    SatisfiableAgree(wff[..nclauses], nvars);
  }

  /** Incrementing a counter below its overflow adds one to the value of its low bits. */
  lemma IncValue(c: seq<Bit>, nvars: nat)
    requires |c| == nvars + 1 && c[nvars] == 0
    ensures Val(c) == Val(c[..nvars])
    ensures Val(Inc(c)) == Val(c) + 1
  {
    assert c == c[..nvars] + [0];
    ValSnoc(c[..nvars], 0);
    assert c[nvars] in c;
    ValInc(c);
  }

  /** One more rejected assignment extends the rejected range by one. */
  lemma RejectStep(wff: seq<Clause>, nclauses: nat, nvars: nat, from: nat, low: seq<Bit>)
    requires nclauses <= |wff| && |low| == nvars
    requires Rejected(wff, nclauses, nvars, from, Val(low)) && !Accepts(wff, nclauses, low)
    ensures Rejected(wff, nclauses, nvars, from, Val(low) + 1)
  {
    forall b: seq<Bit> | |b| == nvars && from <= Val(b) < Val(low) + 1
      ensures !Accepts(wff, nclauses, b)
    {
      if Val(b) == Val(low) {
        ValInjective(b, low);
      }
    }
  }

  /**
    Some assignment to variables 1..nvars satisfies `wff` exactly when some
    bit list of length nvars does: the checker and the solver decide the same
    question.
   */
  lemma SatisfiableAgree(wff: seq<Clause>, nvars: nat)
    requires InRange(wff, nvars)
    ensures Satisfiable(wff, nvars) <==> exists b: seq<Bit> :: |b| == nvars && Satisfies(wff, AsCells(b))
  {
    if Satisfiable(wff, nvars) {
      var a: seq<Cell> :| |a| == nvars + 1 && Satisfies(wff, a);
      var b := seq(nvars, i requires 0 <= i < nvars => a[i].value);
      forall c | c in wff ensures ClauseTrue(c, AsCells(b)) {
        var z :| z in c && LitTrue(z, a);
        assert LitTrue(z, AsCells(b));
      }
    }
    if b: seq<Bit> :| |b| == nvars && Satisfies(wff, AsCells(b)) {
      var a := AsCells(b) + [Cell(0, 0)];
      forall c | c in wff ensures ClauseTrue(c, a) {
        var z :| z in c && LitTrue(z, AsCells(b));
        assert LitTrue(z, a);
      }
    }
  }

  // ---------------------------------------------------------------------------
  // The operations
  // ---------------------------------------------------------------------------

  /** Lines 45-52: does some literal of `clause` agree with the assignment? */
  method EvalClause(clause: Clause, nvars: nat, assignment: array<Bit>) returns (satisfiable: bool)
    requires assignment.Length == nvars + 2
    requires forall lit :: lit in clause ==> 1 <= Abs(lit) <= nvars
    ensures satisfiable <==> ClauseTrue(clause, AsCells(assignment[1..nvars + 1]))
  {
    ghost var a := AsCells(assignment[1..nvars + 1]);
    satisfiable := false;
    var j := 0;
    while j < |clause|
      invariant j <= |clause|
      invariant forall k :: 0 <= k < j ==> !LitTrue(clause[k], a)
    {
      var literal := clause[j];
      assert literal in clause;
      var lit := if literal > 0 then 1 else 0;
      var varValue := assignment[Abs(literal)];
      if lit == varValue {
        assert LitTrue(literal, a);
        satisfiable := true;
        break;
      }
      j := j + 1;
    }
    if !satisfiable {
      forall z | z in clause ensures !LitTrue(z, a) {
        var k :| 0 <= k < |clause| && clause[k] == z;
      }
    }
  }

  /**
    Lines 42-53: scan the first `nclauses` clauses, stopping at the first one
    with no true literal.
   */
  method EvalWff(wff: seq<Clause>, nvars: nat, nclauses: nat, assignment: array<Bit>)
    returns (satisfiable: bool)
    requires nclauses <= |wff| && assignment.Length == nvars + 2
    requires InRange(wff[..nclauses], nvars)
    ensures satisfiable <==> Accepts(wff, nclauses, assignment[1..nvars + 1])
  {
    ghost var a := AsCells(assignment[1..nvars + 1]);
    satisfiable := false;
    var i := 0;
    while i < nclauses
      invariant i <= nclauses
      invariant forall k :: 0 <= k < i ==> ClauseTrue(wff[k], a)
      invariant satisfiable <==> i > 0
    {
      var clause := wff[i];
      assert clause in wff[..nclauses];
      satisfiable := EvalClause(clause, nvars, assignment);
      if !satisfiable {
        assert !Satisfies(wff[..nclauses], a);
        break;
      }
      i := i + 1;
    }
    if satisfiable {
      forall c | c in wff[..nclauses] ensures ClauseTrue(c, a) {
        var k :| 0 <= k < nclauses && wff[..nclauses][k] == c;
      }
    }
  }

  /** Lines 56-60: the counter in `assignment[1..]` moves to its next value. */
  method Increment(assignment: array<Bit>)
    requires assignment.Length >= 1
    modifies assignment
    ensures assignment[0] == old(assignment[0])
    ensures assignment[1..] == Inc(old(assignment[1..]))
  {
    ghost var s := assignment[1..];
    var i := 1;
    while i < assignment.Length
      invariant 1 <= i <= assignment.Length
      invariant forall k :: 0 <= k < i - 1 ==> s[k] == 1
      invariant forall k :: 1 <= k < i ==> assignment[k] == 0
      invariant forall k :: i <= k < assignment.Length ==> assignment[k] == s[k - 1]
      invariant assignment[0] == old(assignment[0])
    {
      if assignment[i] == 0 {
        assignment[i] := 1;
        ghost var r := Zeros(i - 1) + ([1] + s[i..]);
        assert Inc(s) == r by {
          IncOnes(s, i - 1);
          assert s[i - 1..] == [0] + s[i..];
        }
        forall k | 0 <= k < |r| ensures assignment[1..][k] == r[k] {
          if k >= i {
            assert r[k] == s[k];
          }
        }
        assert assignment[1..] == r;
        return;
      }
      assignment[i] := 0;
      i := i + 1;
    }
    assert Inc(s) == Zeros(i - 1) by {
      IncOnes(s, i - 1);
    }
    assert assignment[1..] == Zeros(i - 1);
  }

  /**
    `check`: run the counter from its current value until it overflows or the
    formula accepts the assignment it holds.

    The answer is true exactly when some assignment whose counter value is at
    least the starting value is accepted; the array is then left holding the
    first such assignment. Otherwise the counter has overflowed: from a start
    without the overflow bit it ends with bits 1..nvars clear and the overflow
    bit set, and from a start with it the array is untouched.
   */
  method Check(wff: seq<Clause>, nvars: nat, nclauses: nat, assignment: array<Bit>)
    returns (satisfiable: bool)
    requires nclauses <= |wff| && assignment.Length == nvars + 2
    requires InRange(wff[..nclauses], nvars)
    modifies assignment
    ensures satisfiable <==> AcceptedFrom(wff, nclauses, nvars, Val(old(assignment[1..])))
    ensures satisfiable ==>
              Accepts(wff, nclauses, assignment[1..nvars + 1]) && assignment[nvars + 1] == 0 &&
              Val(old(assignment[1..])) <= Val(assignment[1..]) &&
              Rejected(wff, nclauses, nvars, Val(old(assignment[1..])), Val(assignment[1..]))
    ensures !satisfiable ==> assignment[nvars + 1] == 1
    ensures !satisfiable && old(assignment[nvars + 1]) == 0 ==> assignment[1..nvars + 1] == Zeros(nvars)
    ensures old(assignment[nvars + 1]) == 1 ==> assignment[..] == old(assignment[..])
    ensures assignment[0] == old(assignment[0])
  {
    ghost var start := Val(assignment[1..]);
    ghost var c := assignment[1..];
    ValBound(c[..nvars]);
    assert c == c[..nvars] + [c[nvars]];
    ValSnoc(c[..nvars], c[nvars]);
    satisfiable := false;
    while assignment[nvars + 1] == 0
      invariant assignment[0] == old(assignment[0])
      invariant !satisfiable
      invariant start <= Val(assignment[1..])
      invariant old(assignment[nvars + 1]) == 0 ==> Val(assignment[1..]) <= Pow2(nvars)
      invariant old(assignment[nvars + 1]) == 1 ==> assignment[..] == old(assignment[..])
      invariant Rejected(wff, nclauses, nvars, start, Val(assignment[1..]))
      decreases Pow2(nvars + 1) - Val(assignment[1..])
    {
      c := assignment[1..];
      LowBits(c, assignment[1..nvars + 1], nvars);
      ValBound(c);
      satisfiable := EvalWff(wff, nvars, nclauses, assignment);
      if satisfiable {
        break;
      }
      IncValue(c, nvars);
      RejectStep(wff, nclauses, nvars, start, c[..nvars]);
      ValBound(c[..nvars]);
      Increment(assignment);
    }
    c := assignment[1..];
    LowBits(c, assignment[1..nvars + 1], nvars);
    if satisfiable {
      Found(wff, nclauses, nvars, start, c);
    } else {
      Exhausted(wff, nclauses, nvars, start, c);
      if old(assignment[nvars + 1]) == 0 {
        Overflowed(c, nvars);
      }
    }
  }

  /**
    Lines 74-80 without the timer: a zero array of Nvars+2 entries handed to
    `check`. The flag is the answer to satisfiability over variables 1..Nvars
    (an empty formula counts as unsatisfiable), and the array returned holds a
    model when there is one.
   */
  method TestWff(wff: seq<Clause>, nvars: nat, nclauses: nat) returns (assignment: seq<Bit>, satFlag: bool)
    requires nclauses <= |wff| && InRange(wff[..nclauses], nvars)
    ensures satFlag <==> nclauses > 0 && Satisfiable(wff[..nclauses], nvars)
    ensures |assignment| == nvars + 2 && assignment[0] == 0
    ensures satFlag ==> Satisfies(wff[..nclauses], AsCells(assignment[1..nvars + 1]))
    ensures !satFlag ==> assignment == Zeros(nvars + 1) + [1]
  {
    var store := new Bit[nvars + 2](_ => 0);
    assert store[1..] == Zeros(nvars + 1);
    ValZeros(nvars + 1);
    satFlag := Check(wff, nvars, nclauses, store);
    assignment := store[..];
    AcceptedFromZero(wff, nclauses, nvars);
    assert assignment[1..nvars + 1] == store[1..nvars + 1];
    if !satFlag {
      assert assignment == [assignment[0]] + assignment[1..nvars + 1] + [assignment[nvars + 1]];
    }
  }
}
