/** Literals, clauses and assignments, and the clause constructors of the
    SAT library (encode_clause, encode_implication_clause, encode_implication,
    always_true, always_false). A clause is kept as the sequence of its
    literals rather than as the DIMACS text the library concatenates. */
module Clauses {

  /** A literal is a non-zero integer: its magnitude is the variable and its
      sign the polarity (0 is the DIMACS clause terminator). */
  type Lit = l: int | l != 0 witness 1

  /** A clause is the disjunction of its literals. */
  type Clause = seq<Lit>

  /** A truth value for every variable id. */
  type Assignment = int -> bool

  /** The variable a literal refers to. */
  function Var(l: Lit): (v: nat)
    ensures v >= 1 && (v == l as int || v == -(l as int))
  {
    if l > 0 then l as int else -(l as int)
  }

  /** Literal `l` is true under `a`. */
  predicate Holds(a: Assignment, l: Lit) {
    if l > 0 then a(l) else !a(Var(l))
  }

  /** The opposite literal, written `-l` in the library. */
  function Neg(l: Lit): (r: Lit)
    ensures Var(r) == Var(l) && r != l
    ensures forall a :: Holds(a, r) <==> !Holds(a, l)
  {
    -(l as int)
  }

  /** Some literal of `c` is true under `a`. */
  predicate Sat(a: Assignment, c: Clause) {
    exists l :: l in c && Holds(a, l)
  }

  /** Every clause of `cs` is true under `a`. */
  predicate SatAll(a: Assignment, cs: seq<Clause>) {
    forall c :: c in cs ==> Sat(a, c)
  }

  /** Every literal of every clause of `cs` mentions a variable in 1..vars. */
  predicate Bounded(cs: seq<Clause>, vars: int) {
    forall c, l :: c in cs && l in c ==> Var(l) <= vars
  }

  /** `a` and `b` agree on the variables 1..vars. */
  predicate Agree(a: Assignment, b: Assignment, vars: int) {
    forall v :: 1 <= v <= vars ==> a(v) == b(v)
  }

  /** Number of positions of `s` whose literal is true under `a`. */
  function Count(a: Assignment, s: seq<Lit>): (r: nat)
    ensures r <= |s|
  {
    if |s| == 0 then 0
    else Count(a, s[..|s| - 1]) + (if Holds(a, s[|s| - 1]) then 1 else 0)
  }

  // ---------------------------------------------------------------------
  // Clause constructors

  /** encode_clause: the disjunction of exactly the given literals. */
  function EncodeClause(lits: seq<Lit>): (c: Clause)
    ensures c == lits
    ensures |c| == |lits|
    ensures forall a :: Sat(a, c) <==> exists t :: 0 <= t < |lits| && Holds(a, lits[t])
  {
    lits
  }

  /** encode_implication_clause: `a -> clause`, i.e. `Neg(a)` put in front. */
  function EncodeImplicationClause(a: Lit, clause: Clause): (c: Clause)
    ensures |c| == |clause| + 1 && c[0] == Neg(a) && c[1..] == clause
    ensures forall asg :: Sat(asg, c) <==> (Holds(asg, a) ==> Sat(asg, clause))
  {
    var c := [Neg(a)] + clause;
    assert forall l :: l in c <==> l == Neg(a) || l in clause;
    c
  }

  /** encode_implication: the two-literal clause `a -> b`. */
  function EncodeImplication(a: Lit, b: Lit): (c: Clause)
    ensures |c| == 2 && c[0] == Neg(a) && c[1] == b
    ensures forall asg :: Sat(asg, c) <==> (Holds(asg, a) ==> Holds(asg, b))
  {
    var c := [Neg(a), b];
    assert forall l :: l in c <==> l == Neg(a) || l == b;
    c
  }

  /** always_true: the unit clause forcing `a`. */
  function AlwaysTrue(a: Lit): (c: Clause)
    ensures |c| == 1 && c[0] == a
    ensures forall asg :: Sat(asg, c) <==> Holds(asg, a)
  {
    var c := [a];
    assert forall l :: l in c <==> l == a;
    c
  }

  /** always_false: the unit clause forcing `Neg(a)`. */
  function AlwaysFalse(a: Lit): (c: Clause)
    ensures |c| == 1 && c[0] == Neg(a)
    ensures forall asg :: Sat(asg, c) <==> !Holds(asg, a)
  {
    var c := [Neg(a)];
    assert forall l :: l in c <==> l == Neg(a);
    c
  }

  // ---------------------------------------------------------------------
  // Facts about satisfaction and counting

  lemma SatAllAppend(a: Assignment, p: seq<Clause>, q: seq<Clause>)
    ensures SatAll(a, p + q) <==> SatAll(a, p) && SatAll(a, q)
  {
    assert forall c :: c in p + q <==> c in p || c in q;
  }

  lemma BoundedAppend(p: seq<Clause>, q: seq<Clause>, vars: int)
    ensures Bounded(p + q, vars) <==> Bounded(p, vars) && Bounded(q, vars)
  {
    assert forall c :: c in p + q <==> c in p || c in q;
  }

  lemma SatAllAgree(a: Assignment, b: Assignment, cs: seq<Clause>, vars: int)
    requires Bounded(cs, vars) && Agree(a, b, vars)
    ensures SatAll(a, cs) <==> SatAll(b, cs)
  {
    forall l: Lit | Var(l) <= vars
      ensures Holds(a, l) == Holds(b, l)
    {
      assert a(Var(l)) == b(Var(l));
    }
  }

  /** Adding the literal at position i to the prefix before it. */
  lemma CountStep(a: Assignment, s: seq<Lit>, i: int)
    requires 0 <= i < |s|
    ensures Count(a, s[..i + 1]) == Count(a, s[..i]) + (if Holds(a, s[i]) then 1 else 0)
  {
    assert s[..i + 1][..i] == s[..i];
  }

  lemma {:induction false} CountAgree(a: Assignment, b: Assignment, s: seq<Lit>, vars: int)
    requires Agree(a, b, vars)
    requires forall t :: 0 <= t < |s| ==> Var(s[t]) <= vars
    ensures Count(a, s) == Count(b, s)
  {
    if |s| > 0 {
      CountAgree(a, b, s[..|s| - 1], vars);
      assert a(Var(s[|s| - 1])) == b(Var(s[|s| - 1]));
    }
  }

  /** Count(a, s) is zero exactly when no literal of s is true. */
  lemma {:induction false} CountZero(a: Assignment, s: seq<Lit>)
    ensures Count(a, s) == 0 <==> forall t :: 0 <= t < |s| ==> !Holds(a, s[t])
  {
    if |s| > 0 {
      var p := s[..|s| - 1];
      CountZero(a, p);
      assert forall t :: 0 <= t < |p| ==> p[t] == s[t];
    }
  }

  /** Count(a, s) is at most one exactly when no two positions are both true. */
  lemma {:induction false} CountAtMostOne(a: Assignment, s: seq<Lit>)
    ensures Count(a, s) <= 1 <==>
            forall i, k :: 0 <= i < k < |s| ==> !(Holds(a, s[i]) && Holds(a, s[k]))
  {
    if |s| > 0 {
      var n := |s| - 1;
      var p := s[..n];
      CountAtMostOne(a, p);
      CountZero(a, p);
      assert forall t :: 0 <= t < |p| ==> p[t] == s[t];
      if Count(a, s) <= 1 {
        forall i, k | 0 <= i < k < |s|
          ensures !(Holds(a, s[i]) && Holds(a, s[k]))
        {
          if k == n {
            if Holds(a, s[k]) { assert !Holds(a, p[i]); }
          } else {
            assert !(Holds(a, p[i]) && Holds(a, p[k]));
          }
        }
      } else {
        if Count(a, p) <= 1 {
          assert Holds(a, s[n]) && Count(a, p) == 1;
          var i :| 0 <= i < |p| && Holds(a, p[i]);
          assert Holds(a, s[i]) && Holds(a, s[n]);
        } else {
          var i, k :| 0 <= i < k < |p| && Holds(a, p[i]) && Holds(a, p[k]);
          assert Holds(a, s[i]) && Holds(a, s[k]);
        }
      }
    }
  }
}
