/** value_of: reading a variable's value from the solver's assignment, the
    sequence of signed literals it prints on its `v` lines (one per
    variable, in increasing variable order). */
module Solution {
  import opened Clauses

  /** The position Python's `sol[idx]` reads: a negative index counts from the end. */
  function PyIndex(len: nat, idx: int): (r: nat)
    requires -(len as int) <= idx < len
    ensures r < len
    ensures idx >= 0 ==> r == idx
    ensures idx < 0 ==> r + (-idx) == len
  {
    if idx < 0 then len + idx else idx
  }

  /** value_of(sol, variable): 0 when the entry for the variable is negative, 1 otherwise. */
  function ValueOf(sol: seq<int>, v: int): (r: int)
    requires -|sol| <= v - 1 < |sol|
    ensures r == 0 || r == 1
    ensures v >= 1 ==> (r == 1 <==> sol[v - 1] >= 0)
    ensures v < 1 ==> (r == 1 <==> sol[|sol| + v - 1] >= 0)
  {
    if sol[PyIndex(|sol|, v - 1)] < 0 then 0 else 1
  }

  /** What run_solver returns on a satisfiable instance: the numbers of the
      `v` lines in order, so entry t is the literal of variable t + 1, and the
      list ends with the 0 that closes the last `v` line. */
  predicate SolverOutput(sol: seq<int>) {
    |sol| >= 1 && sol[|sol| - 1] == 0 &&
    forall t :: 0 <= t < |sol| - 1 ==> sol[t] == t + 1 || sol[t] == -(t + 1)
  }

  /** The assignment a solver output describes. */
  function AssignmentOf(sol: seq<int>): Assignment {
    v => 1 <= v < |sol| && sol[v - 1] > 0
  }

  /** On a solver output, value_of is 1 exactly when the variable is set true,
      that is, when the output lists the literal v rather than -v. */
  lemma ValueOfAssignment(sol: seq<int>, v: int)
    requires SolverOutput(sol)
    requires 1 <= v < |sol|
    ensures ValueOf(sol, v) == 1 <==> AssignmentOf(sol)(v)
    ensures ValueOf(sol, v) == 1 <==> sol[v - 1] == v
    ensures ValueOf(sol, v) == 0 <==> sol[v - 1] == -v
  {
    assert sol[v - 1] == v || sol[v - 1] == -v;
  }

  /** A literal of a clause holds under a solver output's assignment exactly
      when value_of reports its variable with the literal's polarity. */
  lemma HoldsValueOf(sol: seq<int>, l: Lit)
    requires SolverOutput(sol)
    requires Var(l) < |sol|
    ensures Holds(AssignmentOf(sol), l) <==> ValueOf(sol, Var(l)) == (if l > 0 then 1 else 0)
  {
    ValueOfAssignment(sol, Var(l));
  }

  /** The output line `v 1 -2 3 0` parsed as [1, -2, 3, 0] is a solver
      output: variables 1, 2, 3 read 1, 0, 1, and the trailing 0 reads as 1. */
  lemma ValueOfExample()
    ensures SolverOutput([1, -2, 3, 0])
    ensures ValueOf([1, -2, 3, 0], 1) == 1
    ensures ValueOf([1, -2, 3, 0], 2) == 0
    ensures ValueOf([1, -2, 3, 0], 3) == 1
    ensures ValueOf([1, -2, 3, 0], 4) == 1
  {
  }
}
