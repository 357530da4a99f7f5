/** encode_sum_at_least: the sequential-counter encoding of "at least k of
    x are true". It allocates a (k+1) x n matrix y of fresh variables, row j
    meaning "at least j of x[0..i] are true" at column i, and appends five
    seed clauses and five families of clauses produced by nested loops. */
module SumAtLeast {
  import opened Clauses
  import opened SatModel

  /** The five clause families, in the order the library appends them:
      vertical and horizontal monotonicity, the zero diagonal, and the two
      channeling families. */
  datatype Family = Vertical | Horizontal | DiagonalZero | ChannelTrue | ChannelFalse

  /** Columns i of family f run over ColLo(f) .. ColHi(f, n) - 1 (outer loop). */
  function ColLo(f: Family): nat {
    if f == ChannelFalse then 1 else 0
  }

  function ColHi(f: Family, n: nat): int {
    match f
    case Vertical => n
    case ChannelFalse => n
    case _ => n - 1
  }

  /** Rows j of family f run over RowLo(f) .. RowHi(f, k) - 1 (inner loop). */
  function RowLo(f: Family): nat {
    if f == Vertical then 1 else 0
  }

  function RowHi(f: Family, k: nat): nat {
    match f
    case Vertical => k + 1
    case Horizontal => k + 1
    case ChannelFalse => k + 1
    case _ => k
  }

  /** `y` is a (k+1) x n matrix with k = |y| - 1 >= 2 and n = |x| >= 1. */
  predicate Shaped(x: seq<Lit>, y: seq<seq<Lit>>) {
    |x| >= 1 && |y| >= 3 && forall j :: 0 <= j < |y| ==> |y[j]| == |x|
  }

  predicate InFamily(f: Family, x: seq<Lit>, y: seq<seq<Lit>>, i: int, j: int) {
    |y| >= 1 && ColLo(f) <= i < ColHi(f, |x|) && RowLo(f) <= j < RowHi(f, |y| - 1)
  }

  /** The clause family f appends at column i and row j. */
  function FamilyClause(f: Family, x: seq<Lit>, y: seq<seq<Lit>>, i: int, j: int): Clause
    requires Shaped(x, y) && InFamily(f, x, y, i, j)
  {
    match f
    case Vertical => EncodeImplication(y[j][i], y[j - 1][i])
    case Horizontal => EncodeImplication(y[j][i], y[j][i + 1])
    case DiagonalZero => EncodeImplication(Neg(y[j][i]), Neg(y[j + 1][i + 1]))
    case ChannelTrue => EncodeClause([Neg(y[j][i]), Neg(x[i + 1]), y[j + 1][i + 1]])
    case ChannelFalse => EncodeClause([x[i], y[j][i - 1], Neg(y[j][i])])
  }

  /** The clauses of family f at column i, rows in increasing order. */
  function FamilyColumn(f: Family, x: seq<Lit>, y: seq<seq<Lit>>, i: int): seq<Clause>
    requires Shaped(x, y) && ColLo(f) <= i < ColHi(f, |x|)
  {
    var lo, hi := RowLo(f), RowHi(f, |y| - 1);
    seq(hi - lo, t requires 0 <= t < hi - lo => FamilyClause(f, x, y, i, lo + t))
  }

  /** The clauses of family f at the columns before i. */
  function FamilyColumns(f: Family, x: seq<Lit>, y: seq<seq<Lit>>, i: int): seq<Clause>
    requires Shaped(x, y) && ColLo(f) <= i <= ColHi(f, |x|)
    decreases i
  {
    if i == ColLo(f) then [] else FamilyColumns(f, x, y, i - 1) + FamilyColumn(f, x, y, i - 1)
  }

  /** Everything one loop nest appends. */
  function FamilyClauses(f: Family, x: seq<Lit>, y: seq<seq<Lit>>): seq<Clause>
    requires Shaped(x, y)
  {
    FamilyColumns(f, x, y, ColHi(f, |x|))
  }

  /** The five clauses appended before the loops. */
  function SeedClauses(x: seq<Lit>, y: seq<seq<Lit>>): seq<Clause>
    requires Shaped(x, y)
  {
    var k, n := |y| - 1, |x|;
    [ AlwaysTrue(y[0][0]),
      AlwaysTrue(y[k][n - 1]),
      EncodeImplication(x[0], y[1][0]),
      EncodeImplication(y[1][0], x[0]),
      AlwaysFalse(y[2][0]) ]
  }

  /** Everything encode_sum_at_least appends, in order. */
  function SumAtLeastClauses(x: seq<Lit>, y: seq<seq<Lit>>): seq<Clause>
    requires Shaped(x, y)
  {
    SeedClauses(x, y)
      + FamilyClauses(Vertical, x, y)
      + FamilyClauses(Horizontal, x, y)
      + FamilyClauses(DiagonalZero, x, y)
      + FamilyClauses(ChannelTrue, x, y)
      + FamilyClauses(ChannelFalse, x, y)
  }

  /** The counter matrix allocated on top of `v0` variables: `rows` rows of
      `n` ids each, row j being the j-th block of n consecutive ids. */
  function Counter(v0: nat, n: nat, rows: nat): seq<seq<Lit>> {
    seq(rows, j requires 0 <= j < rows => Block(v0 + 1 + j * n, n))
  }

  // ---------------------------------------------------------------------
  // The methods

  /** One loop nest of encode_sum_at_least: i outer, j inner. */
  method AppendFamily(m: Model, f: Family, x: seq<Lit>, y: seq<seq<Lit>>)
    requires Shaped(x, y)
    modifies m
    ensures m.cls == old(m.cls) + FamilyClauses(f, x, y)
    ensures m.vars == old(m.vars) && m.soft == old(m.soft) && m.name == old(m.name)
  {
    var i := ColLo(f);
    while i < ColHi(f, |x|)
      invariant ColLo(f) <= i <= ColHi(f, |x|)
      invariant m.cls == old(m.cls) + FamilyColumns(f, x, y, i)
      invariant m.vars == old(m.vars) && m.soft == old(m.soft) && m.name == old(m.name)
    {
      var lo, hi := RowLo(f), RowHi(f, |y| - 1);
      var j := lo;
      while j < hi
        invariant lo <= j <= hi
        invariant m.cls == old(m.cls) + FamilyColumns(f, x, y, i) + FamilyColumn(f, x, y, i)[..j - lo]
        invariant m.vars == old(m.vars) && m.soft == old(m.soft) && m.name == old(m.name)
      {
        assert FamilyColumn(f, x, y, i)[..j + 1 - lo]
            == FamilyColumn(f, x, y, i)[..j - lo] + [FamilyClause(f, x, y, i, j)];
        m.cls := m.cls + [FamilyClause(f, x, y, i, j)];
        j := j + 1;
      }
      assert FamilyColumn(f, x, y, i)[..hi - lo] == FamilyColumn(f, x, y, i);
      i := i + 1;
    }
  }

  /** The allocation loop of encode_sum_at_least: `rows` calls of
      define_new_list(n), one per row of the counter matrix. */
  method AllocateCounter(m: Model, n: nat, rows: nat) returns (y: seq<seq<Lit>>)
    modifies m
    ensures y == Counter(old(m.vars), n, rows)
    ensures m.vars == old(m.vars) + rows * n
    ensures m.cls == old(m.cls) && m.soft == old(m.soft) && m.name == old(m.name)
  {
    y := [];
    for j := 0 to rows
      invariant y == Counter(old(m.vars), n, j)
      invariant m.vars == old(m.vars) + j * n
      invariant m.cls == old(m.cls) && m.soft == old(m.soft) && m.name == old(m.name)
    {
      var row := m.DefineNewList(n);
      CounterSnoc(old(m.vars), n, j);
      y := y + [row];
    }
  }

  method EncodeSumAtLeast(m: Model, x: seq<Lit>, k: int) returns (y: seq<seq<Lit>>)
    requires k > 1
    requires |x| >= 1
    modifies m
    ensures y == Counter(old(m.vars), |x|, k + 1)
    ensures Shaped(x, y) && |y| == k + 1
    ensures m.vars == old(m.vars) + (k + 1) * |x|
    ensures m.cls == old(m.cls) + SumAtLeastClauses(x, y)
    ensures m.soft == old(m.soft) && m.name == old(m.name)
    ensures old(m.Valid()) && (forall i :: 0 <= i < |x| ==> Var(x[i]) <= old(m.vars)) ==> m.Valid()
  {
    var n := |x|;
    y := AllocateCounter(m, n, k + 1);
    CounterShaped(x, old(m.vars), k + 1);
    m.cls := m.cls + SeedClauses(x, y);
    AppendFamily(m, Vertical, x, y);
    AppendFamily(m, Horizontal, x, y);
    AppendFamily(m, DiagonalZero, x, y);
    AppendFamily(m, ChannelTrue, x, y);
    AppendFamily(m, ChannelFalse, x, y);
    AppendSix(old(m.cls), SeedClauses(x, y), FamilyClauses(Vertical, x, y), FamilyClauses(Horizontal, x, y),
      FamilyClauses(DiagonalZero, x, y), FamilyClauses(ChannelTrue, x, y), FamilyClauses(ChannelFalse, x, y));
    if old(m.Valid()) && (forall i :: 0 <= i < |x| ==> Var(x[i]) <= old(m.vars)) {
      CounterFresh(old(m.vars), n, k + 1);
      SumAtLeastBounded(x, y, m.vars);
      BoundedAppend(old(m.cls), SumAtLeastClauses(x, y), m.vars);
    }
  }

  lemma AppendSix<T>(c: seq<T>, s0: seq<T>, s1: seq<T>, s2: seq<T>, s3: seq<T>, s4: seq<T>, s5: seq<T>)
    ensures c + (s0 + s1 + s2 + s3 + s4 + s5) == c + s0 + s1 + s2 + s3 + s4 + s5
  {
  }

  lemma CounterSnoc(v0: nat, n: nat, j: nat)
    ensures Counter(v0, n, j) + [Block(v0 + 1 + j * n, n)] == Counter(v0, n, j + 1)
  {
  }

  lemma CounterShaped(x: seq<Lit>, v0: nat, rows: nat)
    requires |x| >= 1 && rows >= 3
    ensures Shaped(x, Counter(v0, |x|, rows)) && |Counter(v0, |x|, rows)| == rows
  {
  }

  // ---------------------------------------------------------------------
  // Layout of the counter matrix

  /** The rows of a matrix, concatenated. */
  function Flatten(rows: seq<seq<Lit>>): seq<Lit> {
    if rows == [] then [] else Flatten(rows[..|rows| - 1]) + rows[|rows| - 1]
  }

  lemma MulBelow(j: int, i: int, n: int, rows: int)
    requires 0 <= j < rows && 0 <= i < n
    ensures 0 <= j * n + i < rows * n
  {
    assert (j + 1) * n <= rows * n;
  }

  lemma CounterAt(v0: nat, n: nat, rows: nat, j: int, i: int)
    requires 0 <= j < rows && 0 <= i < n
    ensures |Counter(v0, n, rows)[j]| == n && Counter(v0, n, rows)[j][i] == v0 + 1 + j * n + i
  {
  }

  /** Every id of the matrix is fresh: above v0 and within the rows * n allocated. */
  lemma CounterFresh(v0: nat, n: nat, rows: nat)
    ensures |Counter(v0, n, rows)| == rows
    ensures forall j, i :: 0 <= j < rows && 0 <= i < n ==>
              |Counter(v0, n, rows)[j]| == n && v0 < Counter(v0, n, rows)[j][i] <= v0 + rows * n
  {
    forall j, i | 0 <= j < rows && 0 <= i < n
      ensures v0 < Counter(v0, n, rows)[j][i] <= v0 + rows * n
    {
      MulBelow(j, i, n, rows);
    }
  }

  /** Distinct cells of the matrix hold distinct ids. */
  lemma CounterInjective(v0: nat, n: nat, rows: nat, j: int, i: int, j': int, i': int)
    requires 0 <= j < rows && 0 <= i < n && 0 <= j' < rows && 0 <= i' < n
    requires Counter(v0, n, rows)[j][i] == Counter(v0, n, rows)[j'][i']
    ensures j == j' && i == i'
  {
    CounterAt(v0, n, rows, j, i);
    CounterAt(v0, n, rows, j', i');
    CellUnique(j, i, j', i', n);
  }

  lemma CellUnique(j: int, i: int, j': int, i': int, n: int)
    requires 0 <= j && 0 <= i < n && 0 <= j' && 0 <= i' < n
    requires j * n + i == j' * n + i'
    ensures j == j' && i == i'
  {
    if j < j' {
      MulBelow(j, i, n, j');
    } else if j' < j {
      MulBelow(j', i', n, j);
    }
  }

  /** Row after row, the matrix is exactly the ids v0 + 1 .. v0 + rows * n. */
  lemma {:induction false} CounterFlatten(v0: nat, n: nat, rows: nat)
    ensures Flatten(Counter(v0, n, rows)) == Block(v0 + 1, rows * n)
  {
    if rows > 0 {
      var y := Counter(v0, n, rows);
      assert y[..rows - 1] == Counter(v0, n, rows - 1);
      CounterFlatten(v0, n, rows - 1);
      assert rows * n == (rows - 1) * n + n;
    }
  }

  // ---------------------------------------------------------------------
  // Which clauses a family holds

  lemma {:induction false} FamilyColumnsMember(f: Family, x: seq<Lit>, y: seq<seq<Lit>>, r: int, c: Clause)
    requires Shaped(x, y) && ColLo(f) <= r <= ColHi(f, |x|)
    decreases r
    ensures c in FamilyColumns(f, x, y, r) <==>
            exists i, j :: InFamily(f, x, y, i, j) && i < r && c == FamilyClause(f, x, y, i, j)
  {
    if r > ColLo(f) {
      FamilyColumnsMember(f, x, y, r - 1, c);
      var col := FamilyColumn(f, x, y, r - 1);
      var lo := RowLo(f);
      assert c in FamilyColumns(f, x, y, r) <==> c in FamilyColumns(f, x, y, r - 1) || c in col;
      if c in col {
        var t :| 0 <= t < |col| && col[t] == c;
        assert InFamily(f, x, y, r - 1, lo + t) && c == FamilyClause(f, x, y, r - 1, lo + t);
      }
      var i := r - 1;
      forall j | InFamily(f, x, y, i, j)
        ensures FamilyClause(f, x, y, i, j) in col
      {
        assert col[j - lo] == FamilyClause(f, x, y, i, j);
      }
    }
  }

  /** A clause belongs to family f exactly when it is the family's clause at some cell. */
  lemma FamilyMember(f: Family, x: seq<Lit>, y: seq<seq<Lit>>, c: Clause)
    requires Shaped(x, y)
    ensures c in FamilyClauses(f, x, y) <==>
            exists i, j :: InFamily(f, x, y, i, j) && c == FamilyClause(f, x, y, i, j)
  {
    FamilyColumnsMember(f, x, y, ColHi(f, |x|), c);
  }

  /** Variable `v` is the variable of some x[t] or of some cell of y. */
  predicate FromXY(x: seq<Lit>, y: seq<seq<Lit>>, v: int)
    requires Shaped(x, y)
  {
    (exists t :: 0 <= t < |x| && v == Var(x[t])) ||
    (exists j, i :: 0 <= j < |y| && 0 <= i < |x| && v == Var(y[j][i]))
  }

  /** The appended clauses mention only variables of x and of y. */
  lemma SumAtLeastVars(x: seq<Lit>, y: seq<seq<Lit>>)
    requires Shaped(x, y)
    ensures forall c, l :: c in SumAtLeastClauses(x, y) && l in c ==> FromXY(x, y, Var(l))
  {
    forall c, l | c in SumAtLeastClauses(x, y) && l in c
      ensures FromXY(x, y, Var(l))
    {
      if c in SeedClauses(x, y) {
        SeedVars(x, y, c, l);
      } else {
        var f: Family :| c in FamilyClauses(f, x, y);
        FamilyMember(f, x, y, c);
        var i, j :| InFamily(f, x, y, i, j) && c == FamilyClause(f, x, y, i, j);
        FamilyVars(f, x, y, i, j, l);
      }
    }
  }

  lemma SeedVars(x: seq<Lit>, y: seq<seq<Lit>>, c: Clause, l: Lit)
    requires Shaped(x, y) && c in SeedClauses(x, y) && l in c
    ensures FromXY(x, y, Var(l))
  {
    var k, n := |y| - 1, |x|;
    if l == x[0] || l == Neg(x[0]) {
      assert Var(l) == Var(x[0]);
    } else if l == y[0][0] {
      assert Var(l) == Var(y[0][0]);
    } else if l == y[k][n - 1] {
      assert Var(l) == Var(y[k][n - 1]);
    } else if l == y[1][0] || l == Neg(y[1][0]) {
      assert Var(l) == Var(y[1][0]);
    } else {
      assert l == Neg(y[2][0]);
      assert Var(l) == Var(y[2][0]);
    }
  }

  lemma FamilyVars(f: Family, x: seq<Lit>, y: seq<seq<Lit>>, i: int, j: int, l: Lit)
    requires Shaped(x, y) && InFamily(f, x, y, i, j) && l in FamilyClause(f, x, y, i, j)
    ensures FromXY(x, y, Var(l))
  {
    match f
    case Vertical =>
      if Var(l) == Var(y[j][i]) {} else { assert Var(l) == Var(y[j - 1][i]); }
    case Horizontal =>
      if Var(l) == Var(y[j][i]) {} else { assert Var(l) == Var(y[j][i + 1]); }
    case DiagonalZero =>
      if Var(l) == Var(y[j][i]) {} else { assert Var(l) == Var(y[j + 1][i + 1]); }
    case ChannelTrue =>
      if Var(l) == Var(y[j][i]) {}
      else if Var(l) == Var(x[i + 1]) {}
      else { assert Var(l) == Var(y[j + 1][i + 1]); }
    case ChannelFalse =>
      if Var(l) == Var(x[i]) {}
      else if Var(l) == Var(y[j][i - 1]) {}
      else { assert Var(l) == Var(y[j][i]); }
  }

  /** So they stay within any bound that covers x and y. */
  lemma SumAtLeastBounded(x: seq<Lit>, y: seq<seq<Lit>>, vars: int)
    requires Shaped(x, y)
    requires forall i :: 0 <= i < |x| ==> Var(x[i]) <= vars
    requires forall j, i :: 0 <= j < |y| && 0 <= i < |x| ==> Var(y[j][i]) <= vars
    ensures Bounded(SumAtLeastClauses(x, y), vars)
  {
    SumAtLeastVars(x, y);
  }
}
