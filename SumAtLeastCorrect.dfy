/** What the clauses of encode_sum_at_least mean: their number, the unit and
    seed clauses they start with, and the theorem that they can be satisfied
    by some values of the counter matrix exactly when at least k of x hold. */
module SumAtLeastCorrect {
  import opened Clauses
  import opened SatModel
  import opened SumAtLeast

  // ---------------------------------------------------------------------
  // Size and forced clauses

  lemma MulSucc(p: int, w: int)
    ensures (p + 1) * w == p * w + w
  {
  }

  lemma {:induction false} FamilyColumnsLength(f: Family, x: seq<Lit>, y: seq<seq<Lit>>, r: int)
    requires Shaped(x, y) && ColLo(f) <= r <= ColHi(f, |x|)
    decreases r
    ensures |FamilyColumns(f, x, y, r)| == (r - ColLo(f)) * (RowHi(f, |y| - 1) - RowLo(f))
  {
    if r > ColLo(f) {
      FamilyColumnsLength(f, x, y, r - 1);
      MulSucc(r - 1 - ColLo(f), RowHi(f, |y| - 1) - RowLo(f));
    }
  }

  /** Each loop nest appends (number of columns) * (number of rows) clauses. */
  lemma FamilyLength(f: Family, x: seq<Lit>, y: seq<seq<Lit>>)
    requires Shaped(x, y)
    ensures var n, k := |x|, |y| - 1;
            |FamilyClauses(f, x, y)| == match f
              case Vertical => n * k
              case Horizontal => (n - 1) * (k + 1)
              case DiagonalZero => (n - 1) * k
              case ChannelTrue => (n - 1) * k
              case ChannelFalse => (n - 1) * (k + 1)
  {
    FamilyColumnsLength(f, x, y, ColHi(f, |x|));
  }

  /** encode_sum_at_least appends 5 + n k + 2 (n-1)(k+1) + 2 (n-1) k clauses. */
  lemma SumAtLeastCount(x: seq<Lit>, y: seq<seq<Lit>>)
    requires Shaped(x, y)
    ensures var n, k := |x|, |y| - 1;
            |SumAtLeastClauses(x, y)| == 5 + n * k + 2 * (n - 1) * (k + 1) + 2 * (n - 1) * k
  {
    var n, k := |x|, |y| - 1;
    var s := SeedClauses(x, y);
    var v, h, d := FamilyClauses(Vertical, x, y), FamilyClauses(Horizontal, x, y), FamilyClauses(DiagonalZero, x, y);
    var t, f := FamilyClauses(ChannelTrue, x, y), FamilyClauses(ChannelFalse, x, y);
    assert |SumAtLeastClauses(x, y)| == |s| + |v| + |h| + |d| + |t| + |f|;
    FamilyLength(Vertical, x, y);
    FamilyLength(Horizontal, x, y);
    FamilyLength(DiagonalZero, x, y);
    FamilyLength(ChannelTrue, x, y);
    FamilyLength(ChannelFalse, x, y);
    Twice(n - 1, k + 1);
    Twice(n - 1, k);
  }

  lemma Twice(p: int, q: int)
    ensures 2 * p * q == p * q + p * q
  {
  }

  /** The first five clauses: y[0][0], y[k][n-1], x[0] -> y[1][0],
      y[1][0] -> x[0] and -y[2][0]. */
  lemma SumAtLeastForced(x: seq<Lit>, y: seq<seq<Lit>>)
    requires Shaped(x, y)
    ensures var cs, n, k := SumAtLeastClauses(x, y), |x|, |y| - 1;
            |cs| >= 5 &&
            cs[0] == [y[0][0]] &&
            cs[1] == [y[k][n - 1]] &&
            cs[2] == [Neg(x[0]), y[1][0]] &&
            cs[3] == [Neg(y[1][0]), x[0]] &&
            cs[4] == [Neg(y[2][0])]
  {
    var cs, s := SumAtLeastClauses(x, y), SeedClauses(x, y);
    assert cs[..5] == s;
    assert cs[0] == s[0] && cs[1] == s[1] && cs[2] == s[2] && cs[3] == s[3] && cs[4] == s[4];
  }

  // ---------------------------------------------------------------------
  // Meaning of each clause

  /** What the clause of family f at cell (i, j) says. */
  predicate Meaning(a: Assignment, f: Family, x: seq<Lit>, y: seq<seq<Lit>>, i: int, j: int)
    requires Shaped(x, y) && InFamily(f, x, y, i, j)
  {
    match f
    case Vertical => Holds(a, y[j][i]) ==> Holds(a, y[j - 1][i])
    case Horizontal => Holds(a, y[j][i]) ==> Holds(a, y[j][i + 1])
    case DiagonalZero => !Holds(a, y[j][i]) ==> !Holds(a, y[j + 1][i + 1])
    case ChannelTrue => Holds(a, y[j][i]) && Holds(a, x[i + 1]) ==> Holds(a, y[j + 1][i + 1])
    case ChannelFalse => Holds(a, y[j][i]) ==> Holds(a, x[i]) || Holds(a, y[j][i - 1])
  }

  lemma SatThree(a: Assignment, p: Lit, q: Lit, r: Lit)
    ensures Sat(a, EncodeClause([p, q, r])) <==> Holds(a, p) || Holds(a, q) || Holds(a, r)
  {
    var lits := [p, q, r];
    assert lits[0] == p && lits[1] == q && lits[2] == r;
  }

  /** Every clause of every family states the implication named in the library. */
  lemma FamilyClauseMeaning(a: Assignment, f: Family, x: seq<Lit>, y: seq<seq<Lit>>, i: int, j: int)
    requires Shaped(x, y) && InFamily(f, x, y, i, j)
    ensures Sat(a, FamilyClause(f, x, y, i, j)) <==> Meaning(a, f, x, y, i, j)
  {
    match f
    case ChannelTrue => SatThree(a, Neg(y[j][i]), Neg(x[i + 1]), y[j + 1][i + 1]);
    case ChannelFalse => SatThree(a, x[i], y[j][i - 1], Neg(y[j][i]));
    case _ =>
  }

  /** Every clause of family f holds. */
  ghost predicate FamilyHolds(a: Assignment, f: Family, x: seq<Lit>, y: seq<seq<Lit>>)
    requires Shaped(x, y)
  {
    forall i, j :: InFamily(f, x, y, i, j) ==> Meaning(a, f, x, y, i, j)
  }

  lemma FamilySat(a: Assignment, f: Family, x: seq<Lit>, y: seq<seq<Lit>>)
    requires Shaped(x, y)
    ensures SatAll(a, FamilyClauses(f, x, y)) <==> FamilyHolds(a, f, x, y)
  {
    forall i, j | InFamily(f, x, y, i, j)
      ensures FamilyClause(f, x, y, i, j) in FamilyClauses(f, x, y)
      ensures Sat(a, FamilyClause(f, x, y, i, j)) <==> Meaning(a, f, x, y, i, j)
    {
      FamilyMember(f, x, y, FamilyClause(f, x, y, i, j));
      FamilyClauseMeaning(a, f, x, y, i, j);
    }
    forall c | c in FamilyClauses(f, x, y)
      ensures exists i, j :: InFamily(f, x, y, i, j) && c == FamilyClause(f, x, y, i, j)
    {
      FamilyMember(f, x, y, c);
    }
  }

  /** The five seed clauses hold. */
  predicate SeedsHold(a: Assignment, x: seq<Lit>, y: seq<seq<Lit>>)
    requires Shaped(x, y)
  {
    var k, n := |y| - 1, |x|;
    Holds(a, y[0][0]) && Holds(a, y[k][n - 1]) &&
    (Holds(a, x[0]) <==> Holds(a, y[1][0])) && !Holds(a, y[2][0])
  }

  lemma SeedSat(a: Assignment, x: seq<Lit>, y: seq<seq<Lit>>)
    requires Shaped(x, y)
    ensures SatAll(a, SeedClauses(x, y)) <==> SeedsHold(a, x, y)
  {
    var s := SeedClauses(x, y);
    assert s[0] in s && s[1] in s && s[2] in s && s[3] in s && s[4] in s;
  }

  /** All appended clauses hold exactly when the seeds and the five families hold. */
  lemma SumAtLeastSat(a: Assignment, x: seq<Lit>, y: seq<seq<Lit>>)
    requires Shaped(x, y)
    ensures SatAll(a, SumAtLeastClauses(x, y)) <==>
            SeedsHold(a, x, y) &&
            FamilyHolds(a, Vertical, x, y) && FamilyHolds(a, Horizontal, x, y) &&
            FamilyHolds(a, DiagonalZero, x, y) && FamilyHolds(a, ChannelTrue, x, y) &&
            FamilyHolds(a, ChannelFalse, x, y)
  {
    var s0 := SeedClauses(x, y);
    var s1 := FamilyClauses(Vertical, x, y);
    var s2 := FamilyClauses(Horizontal, x, y);
    var s3 := FamilyClauses(DiagonalZero, x, y);
    var s4 := FamilyClauses(ChannelTrue, x, y);
    var s5 := FamilyClauses(ChannelFalse, x, y);
    SatAllAppend(a, s0 + s1 + s2 + s3 + s4, s5);
    SatAllAppend(a, s0 + s1 + s2 + s3, s4);
    SatAllAppend(a, s0 + s1 + s2, s3);
    SatAllAppend(a, s0 + s1, s2);
    SatAllAppend(a, s0, s1);
    SeedSat(a, x, y);
    FamilySat(a, Vertical, x, y);
    FamilySat(a, Horizontal, x, y);
    FamilySat(a, DiagonalZero, x, y);
    FamilySat(a, ChannelTrue, x, y);
    FamilySat(a, ChannelFalse, x, y);
  }

  // ---------------------------------------------------------------------
  // Soundness: y[j][i] true forces at least j true among x[0..i]

  /** The clauses soundness rests on (lines of the library: the seeds, the
      vertical family, the zero diagonal and the second channeling family). */
  ghost predicate SoundnessFacts(a: Assignment, x: seq<Lit>, y: seq<seq<Lit>>)
    requires Shaped(x, y)
  {
    SeedsHold(a, x, y) && FamilyHolds(a, Vertical, x, y) &&
    FamilyHolds(a, DiagonalZero, x, y) && FamilyHolds(a, ChannelFalse, x, y)
  }

  lemma {:induction false} FirstColumnAboveOne(a: Assignment, x: seq<Lit>, y: seq<seq<Lit>>, j: int)
    requires Shaped(x, y) && SoundnessFacts(a, x, y)
    requires 2 <= j < |y|
    ensures !Holds(a, y[j][0])
  {
    if j > 2 {
      FirstColumnAboveOne(a, x, y, j - 1);
      assert Meaning(a, Vertical, x, y, 0, j);
    }
  }

  lemma {:induction false} ColumnSound(a: Assignment, x: seq<Lit>, y: seq<seq<Lit>>, i: int)
    requires Shaped(x, y) && SoundnessFacts(a, x, y)
    requires 0 <= i < |x|
    ensures forall j :: 0 <= j < |y| && Holds(a, y[j][i]) ==> Count(a, x[..i + 1]) >= j
  {
    CountStep(a, x, i);
    if i == 0 {
      forall j | 2 <= j < |y| {
        FirstColumnAboveOne(a, x, y, j);
      }
    } else {
      ColumnSound(a, x, y, i - 1);
      forall j | 1 <= j < |y| && Holds(a, y[j][i])
        ensures Count(a, x[..i + 1]) >= j
      {
        assert Meaning(a, DiagonalZero, x, y, i - 1, j - 1);
        assert Meaning(a, ChannelFalse, x, y, i, j);
      }
    }
  }

  /** Any assignment satisfying the appended clauses makes at least k of x true,
      whatever literals y holds. */
  lemma SumAtLeastSound(a: Assignment, x: seq<Lit>, y: seq<seq<Lit>>)
    requires Shaped(x, y)
    requires SatAll(a, SumAtLeastClauses(x, y))
    ensures Count(a, x) >= |y| - 1
  {
    SumAtLeastSat(a, x, y);
    var n := |x|;
    ColumnSound(a, x, y, n - 1);
    assert x[..n] == x;
  }

  // ---------------------------------------------------------------------
  // Completeness: the running counts satisfy every clause

  /** `b` gives every cell y[j][i] the truth of "at least j of x[0..i] are
      true under a", and agrees with `a` on the literals of x. */
  ghost predicate RunningCounts(a: Assignment, b: Assignment, x: seq<Lit>, y: seq<seq<Lit>>)
    requires Shaped(x, y)
  {
    (forall j, i :: 0 <= j < |y| && 0 <= i < |x| ==> (Holds(b, y[j][i]) <==> Count(a, x[..i + 1]) >= j)) &&
    (forall t :: 0 <= t < |x| ==> (Holds(b, x[t]) <==> Holds(a, x[t])))
  }

  /** What the running counts say about column i. */
  lemma RunningColumn(a: Assignment, b: Assignment, x: seq<Lit>, y: seq<seq<Lit>>, i: int)
    requires Shaped(x, y) && RunningCounts(a, b, x, y)
    requires 0 <= i < |x|
    ensures forall j :: 0 <= j < |y| ==> (Holds(b, y[j][i]) <==> Count(a, x[..i + 1]) >= j)
    ensures Holds(b, x[i]) <==> Holds(a, x[i])
    ensures Count(a, x[..i + 1]) == Count(a, x[..i]) + (if Holds(a, x[i]) then 1 else 0)
  {
    CountStep(a, x, i);
  }

  /** Under the running counts, every family of clauses holds. */
  lemma RunningFamily(a: Assignment, b: Assignment, x: seq<Lit>, y: seq<seq<Lit>>, f: Family)
    requires Shaped(x, y) && RunningCounts(a, b, x, y)
    ensures FamilyHolds(b, f, x, y)
  {
    forall i, j | InFamily(f, x, y, i, j)
      ensures Meaning(b, f, x, y, i, j)
    {
      RunningColumn(a, b, x, y, i);
      match f
      case Vertical =>
      case ChannelFalse => RunningColumn(a, b, x, y, i - 1);
      case _ => RunningColumn(a, b, x, y, i + 1);
    }
  }

  /** Under the running counts, with at least k of x true, the seeds hold. */
  lemma RunningSeeds(a: Assignment, b: Assignment, x: seq<Lit>, y: seq<seq<Lit>>)
    requires Shaped(x, y) && RunningCounts(a, b, x, y)
    requires Count(a, x) >= |y| - 1
    ensures SeedsHold(b, x, y)
  {
    var n := |x|;
    RunningColumn(a, b, x, y, 0);
    RunningColumn(a, b, x, y, n - 1);
    assert x[..n] == x;
  }

  /** If at least k of x are true, setting y[j][i] to "at least j of x[0..i]
      are true" satisfies every appended clause. */
  lemma SumAtLeastComplete(a: Assignment, b: Assignment, x: seq<Lit>, y: seq<seq<Lit>>)
    requires Shaped(x, y) && RunningCounts(a, b, x, y)
    requires Count(a, x) >= |y| - 1
    ensures SatAll(b, SumAtLeastClauses(x, y))
  {
    RunningSeeds(a, b, x, y);
    RunningFamily(a, b, x, y, Vertical);
    RunningFamily(a, b, x, y, Horizontal);
    RunningFamily(a, b, x, y, DiagonalZero);
    RunningFamily(a, b, x, y, ChannelTrue);
    RunningFamily(a, b, x, y, ChannelFalse);
    SumAtLeastSat(b, x, y);
  }

  // ---------------------------------------------------------------------
  // The running counts as an assignment over the fresh variables

  /** The value of the counter cell at offset t of the matrix, row j0 + t / n,
      column t % n: "at least that many of x[0..t % n] are true under a". */
  function CellValue(a: Assignment, x: seq<Lit>, t: nat, j0: nat): bool
    requires |x| >= 1
    decreases t
  {
    if t < |x| then Count(a, x[..t + 1]) >= j0 else CellValue(a, x, t - |x|, j0 + 1)
  }

  /** `a` extended on the counter matrix allocated on top of v0: the id of
      cell (j, i) gets "at least j of x[0..i] are true under a". */
  function Extension(a: Assignment, x: seq<Lit>, v0: nat, rows: nat): Assignment
    requires |x| >= 1
  {
    v => if v0 < v <= v0 + rows * |x| then CellValue(a, x, v - v0 - 1, 0) else a(v)
  }

  lemma {:induction false} CellValueAt(a: Assignment, x: seq<Lit>, j: nat, i: nat, j0: nat)
    requires 0 <= i < |x|
    ensures CellValue(a, x, j * |x| + i, j0) == (Count(a, x[..i + 1]) >= j0 + j)
  {
    if j > 0 {
      assert j * |x| + i - |x| == (j - 1) * |x| + i;
      CellValueAt(a, x, j - 1, i, j0 + 1);
    }
  }

  lemma ExtensionAt(a: Assignment, x: seq<Lit>, v0: nat, rows: nat, j: int, i: int)
    requires |x| >= 1 && 0 <= j < rows && 0 <= i < |x|
    ensures Holds(Extension(a, x, v0, rows), Counter(v0, |x|, rows)[j][i]) == (Count(a, x[..i + 1]) >= j)
  {
    var n := |x|;
    CounterAt(v0, n, rows, j, i);
    MulBelow(j, i, n, rows);
    CellValueAt(a, x, j, i, 0);
  }

  /** The extension leaves 1..v0 alone and gives the matrix the running counts. */
  lemma ExtensionRunning(a: Assignment, x: seq<Lit>, v0: nat, k: int)
    requires k > 1 && |x| >= 1
    requires forall i :: 0 <= i < |x| ==> Var(x[i]) <= v0
    ensures Shaped(x, Counter(v0, |x|, k + 1))
    ensures Agree(a, Extension(a, x, v0, k + 1), v0)
    ensures RunningCounts(a, Extension(a, x, v0, k + 1), x, Counter(v0, |x|, k + 1))
  {
    var b, y := Extension(a, x, v0, k + 1), Counter(v0, |x|, k + 1);
    CounterShaped(x, v0, k + 1);
    forall j, i | 0 <= j < |y| && 0 <= i < |x|
      ensures Holds(b, y[j][i]) <==> Count(a, x[..i + 1]) >= j
    {
      ExtensionAt(a, x, v0, k + 1, j, i);
    }
    forall t | 0 <= t < |x|
      ensures Holds(b, x[t]) <==> Holds(a, x[t])
    {
      assert a(Var(x[t])) == b(Var(x[t]));
    }
  }

  // ---------------------------------------------------------------------
  // Equisatisfiability

  /** With at least k of x true, the running-count extension of `a` keeps
      1..v0 and satisfies the appended clauses. */
  lemma ExtendsWhenEnough(a: Assignment, x: seq<Lit>, v0: nat, k: int)
    requires k > 1 && |x| >= 1
    requires forall i :: 0 <= i < |x| ==> Var(x[i]) <= v0
    requires Count(a, x) >= k
    ensures Shaped(x, Counter(v0, |x|, k + 1))
    ensures Agree(a, Extension(a, x, v0, k + 1), v0)
    ensures SatAll(Extension(a, x, v0, k + 1), SumAtLeastClauses(x, Counter(v0, |x|, k + 1)))
  {
    ExtensionRunning(a, x, v0, k);
    SumAtLeastComplete(a, Extension(a, x, v0, k + 1), x, Counter(v0, |x|, k + 1));
  }

  /** Any assignment that keeps 1..v0 and satisfies the appended clauses
      shows that at least k of x are true under `a`. */
  lemma EnoughWhenExtends(a: Assignment, b: Assignment, x: seq<Lit>, v0: nat, k: int)
    requires k > 1 && |x| >= 1
    requires forall i :: 0 <= i < |x| ==> Var(x[i]) <= v0
    requires Shaped(x, Counter(v0, |x|, k + 1))
    requires Agree(a, b, v0) && SatAll(b, SumAtLeastClauses(x, Counter(v0, |x|, k + 1)))
    ensures Count(a, x) >= k
  {
    SumAtLeastSound(b, x, Counter(v0, |x|, k + 1));
    CountAgree(a, b, x, v0);
  }

  /** For x already allocated (within 1..v0): some values of the counter
      matrix satisfy the appended clauses, leaving the variables 1..v0 as they
      are, exactly when at least k of x hold. */
  lemma SumAtLeastEquisatisfiable(a: Assignment, x: seq<Lit>, v0: nat, k: int)
    requires k > 1 && |x| >= 1
    requires forall i :: 0 <= i < |x| ==> Var(x[i]) <= v0
    ensures (exists b :: Agree(a, b, v0) && SatAll(b, SumAtLeastClauses(x, Counter(v0, |x|, k + 1))))
            <==> Count(a, x) >= k
  {
    CounterShaped(x, v0, k + 1);
    if Count(a, x) >= k {
      ExtendsWhenEnough(a, x, v0, k);
    }
    if b :| Agree(a, b, v0) && SatAll(b, SumAtLeastClauses(x, Counter(v0, |x|, k + 1))) {
      EnoughWhenExtends(a, b, x, v0, k);
    }
  }

  /** On a valid model with v0 variables and x already allocated (within
      1..v0), the clause store after encode_sum_at_least can be satisfied by
      extending `a` exactly when `a` satisfies the clauses before and makes at
      least k of x true. */
  lemma EncodeSumAtLeastModels(a: Assignment, cls: seq<Clause>, x: seq<Lit>, v0: nat, k: int)
    requires k > 1 && |x| >= 1
    requires Bounded(cls, v0)
    requires forall i :: 0 <= i < |x| ==> Var(x[i]) <= v0
    ensures (exists b :: Agree(a, b, v0) && SatAll(b, cls + SumAtLeastClauses(x, Counter(v0, |x|, k + 1))))
            <==> SatAll(a, cls) && Count(a, x) >= k
  {
    var y := Counter(v0, |x|, k + 1);
    CounterShaped(x, v0, k + 1);
    var added := SumAtLeastClauses(x, y);
    forall b | Agree(a, b, v0)
      ensures SatAll(b, cls + added) <==> SatAll(a, cls) && SatAll(b, added)
    {
      SatAllAppend(b, cls, added);
      SatAllAgree(a, b, cls, v0);
    }
    SumAtLeastEquisatisfiable(a, x, v0, k);
  }
}
