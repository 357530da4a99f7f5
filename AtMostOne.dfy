/** encode_atmost_one: the pairwise at-most-one encoding. For every pair of
    positions i < k of `x` it appends the clause `-x[i] -x[k]`, pairs taken
    in lexicographic order. */
module AtMostOne {
  import opened Clauses
  import opened SatModel

  /** The clauses appended for the pairs (i, k) with k = i + 1, ..., |x| - 1. */
  function PairRow(x: seq<Lit>, i: nat): seq<Clause>
    requires i < |x|
  {
    seq(|x| - i - 1, t requires 0 <= t < |x| - i - 1 => EncodeImplication(x[i], Neg(x[i + 1 + t])))
  }

  /** The clauses appended by the first `r` rounds of the outer loop. */
  function PairRows(x: seq<Lit>, r: nat): seq<Clause>
    requires r <= |x|
  {
    if r == 0 then [] else PairRows(x, r - 1) + PairRow(x, r - 1)
  }

  /** Everything encode_atmost_one appends for `x`. */
  function AtMostOneClauses(x: seq<Lit>): seq<Clause> {
    PairRows(x, |x|)
  }

  /** Position of the clause for pair (i, k) among the n(n-1)/2 clauses. */
  function PairIndex(n: int, i: int, k: int): int {
    i * (2 * n - i - 1) / 2 + (k - i - 1)
  }

  // ---------------------------------------------------------------------
  // The method

  method EncodeAtMostOne(m: Model, x: seq<Lit>)
    modifies m
    ensures m.cls == old(m.cls) + AtMostOneClauses(x)
    ensures m.vars == old(m.vars) && m.soft == old(m.soft) && m.name == old(m.name)
    ensures old(m.Valid()) && (forall i :: 0 <= i < |x| ==> Var(x[i]) <= m.vars) ==> m.Valid()
  {
    var l := |x|;
    for i := 0 to l
      invariant m.cls == old(m.cls) + PairRows(x, i)
      invariant m.vars == old(m.vars) && m.soft == old(m.soft) && m.name == old(m.name)
    {
      for k := i + 1 to l
        invariant m.cls == old(m.cls) + PairRows(x, i) + PairRow(x, i)[..k - i - 1]
        invariant m.vars == old(m.vars) && m.soft == old(m.soft) && m.name == old(m.name)
      {
        assert PairRow(x, i)[..k - i] == PairRow(x, i)[..k - i - 1] + [EncodeImplication(x[i], Neg(x[k]))];
        m.cls := m.cls + [EncodeImplication(x[i], Neg(x[k]))];
      }
      assert PairRow(x, i)[..l - i - 1] == PairRow(x, i);
    }
    if old(m.Valid()) && (forall i :: 0 <= i < |x| ==> Var(x[i]) <= m.vars) {
      AtMostOneBounded(x, m.vars);
      BoundedAppend(old(m.cls), AtMostOneClauses(x), m.vars);
    }
  }

  // ---------------------------------------------------------------------
  // Shape of the clause list

  lemma {:induction false} PairRowsLength(x: seq<Lit>, r: nat)
    requires r <= |x|
    ensures 2 * |PairRows(x, r)| == r * (2 * |x| - r - 1)
  {
    if r > 0 {
      PairRowsLength(x, r - 1);
    }
  }

  /** encode_atmost_one appends n(n-1)/2 clauses. */
  lemma AtMostOneCount(x: seq<Lit>)
    ensures 2 * |AtMostOneClauses(x)| == |x| * (|x| - 1)
  {
    PairRowsLength(x, |x|);
  }

  lemma {:induction false} PairRowsPrefix(x: seq<Lit>, r: nat, s: nat)
    requires r <= s <= |x|
    ensures |PairRows(x, r)| <= |PairRows(x, s)|
    ensures PairRows(x, s)[..|PairRows(x, r)|] == PairRows(x, r)
  {
    if r < s {
      PairRowsPrefix(x, r, s - 1);
      var p := PairRows(x, s - 1);
      assert PairRows(x, s) == p + PairRow(x, s - 1);
      assert (p + PairRow(x, s - 1))[..|p|] == p;
    }
  }

  /** The clause for the pair (i, k) sits at PairIndex(n, i, k). */
  lemma AtMostOneAt(x: seq<Lit>, i: int, k: int)
    requires 0 <= i < k < |x|
    ensures 0 <= PairIndex(|x|, i, k) < |AtMostOneClauses(x)|
    ensures AtMostOneClauses(x)[PairIndex(|x|, i, k)] == [Neg(x[i]), Neg(x[k])]
  {
    var n := |x|;
    PairRowsLength(x, i);
    PairRowsPrefix(x, i + 1, n);
    var before := PairRows(x, i);
    assert |before| == i * (2 * n - i - 1) / 2;
    var upto := PairRows(x, i + 1);
    assert upto == before + PairRow(x, i);
    var c := upto[|before| + (k - i - 1)];
    assert c == PairRow(x, i)[k - i - 1];
    assert c == EncodeImplication(x[i], Neg(x[k]));
    assert |c| == 2 && c[0] == Neg(x[i]) && c[1] == Neg(x[k]);
  }

  /** Every appended clause is `-x[i] -x[k]` for some pair i < k. */
  lemma {:induction false} PairRowsShape(x: seq<Lit>, r: nat, c: Clause)
    requires r <= |x| && c in PairRows(x, r)
    ensures exists i, k :: 0 <= i < k < |x| && c == [Neg(x[i]), Neg(x[k])]
  {
    if c in PairRows(x, r - 1) {
      PairRowsShape(x, r - 1, c);
    } else {
      var i := r - 1;
      assert c in PairRow(x, i);
      var t :| 0 <= t < |x| - i - 1 && c == PairRow(x, i)[t];
      assert c == EncodeImplication(x[i], Neg(x[i + 1 + t]));
      assert |c| == 2 && c[0] == Neg(x[i]) && c[1] == Neg(x[i + 1 + t]);
    }
  }

  lemma AtMostOneShape(x: seq<Lit>, c: Clause)
    requires c in AtMostOneClauses(x)
    ensures exists i, k :: 0 <= i < k < |x| && c == [Neg(x[i]), Neg(x[k])]
  {
    PairRowsShape(x, |x|, c);
  }

  /** The clause positions follow the lexicographic order of the pairs. */
  lemma PairIndexOrder(x: seq<Lit>, i: int, k: int, i': int, k': int)
    requires 0 <= i < k < |x| && 0 <= i' < k' < |x|
    requires i < i' || (i == i' && k < k')
    ensures PairIndex(|x|, i, k) < PairIndex(|x|, i', k')
  {
    var n := |x|;
    if i < i' {
      PairRowsLength(x, i);
      PairRowsLength(x, i + 1);
      PairRowsLength(x, i');
      PairRowsPrefix(x, i + 1, i');
      assert |PairRows(x, i + 1)| == |PairRows(x, i)| + (n - i - 1);
      assert PairIndex(n, i, k) < |PairRows(x, i + 1)|;
    }
  }

  /** The clauses mention only variables of `x`. */
  lemma AtMostOneVars(x: seq<Lit>)
    ensures forall c, l :: c in AtMostOneClauses(x) && l in c ==>
              exists i :: 0 <= i < |x| && Var(l) == Var(x[i])
  {
    forall c, l | c in AtMostOneClauses(x) && l in c
      ensures exists i :: 0 <= i < |x| && Var(l) == Var(x[i])
    {
      AtMostOneShape(x, c);
      var i, k :| 0 <= i < k < |x| && c == [Neg(x[i]), Neg(x[k])];
      if l == Neg(x[i]) {
        assert Var(l) == Var(x[i]);
      } else {
        assert Var(l) == Var(x[k]);
      }
    }
  }

  /** So they stay within any bound that covers `x`. */
  lemma AtMostOneBounded(x: seq<Lit>, vars: int)
    requires forall i :: 0 <= i < |x| ==> Var(x[i]) <= vars
    ensures Bounded(AtMostOneClauses(x), vars)
  {
    AtMostOneVars(x);
  }

  // ---------------------------------------------------------------------
  // Meaning

  lemma {:induction false} PairRowsSat(a: Assignment, x: seq<Lit>, r: nat)
    requires r <= |x|
    ensures SatAll(a, PairRows(x, r)) <==>
            forall i, k :: 0 <= i < r && i < k < |x| ==> !(Holds(a, x[i]) && Holds(a, x[k]))
  {
    if r > 0 {
      var i := r - 1;
      PairRowsSat(a, x, i);
      SatAllAppend(a, PairRows(x, i), PairRow(x, i));
      var row := PairRow(x, i);
      assert SatAll(a, row) <==> forall k :: i < k < |x| ==> !(Holds(a, x[i]) && Holds(a, x[k])) by {
        assert forall k :: i < k < |x| ==> row[k - i - 1] == EncodeImplication(x[i], Neg(x[k]));
      }
    }
  }

  /** The appended clauses hold exactly when at most one position of `x` is true. */
  lemma AtMostOneSat(a: Assignment, x: seq<Lit>)
    ensures SatAll(a, AtMostOneClauses(x)) <==> Count(a, x) <= 1
  {
    PairRowsSat(a, x, |x|);
    CountAtMostOne(a, x);
  }
}
