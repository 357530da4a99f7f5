# SAT library: clause constructors, at-most-one and at-least-k encoders

This project models the core of the teaching SAT library
`teaching/2022-2023/sol_sat_lib.py`. The library builds CNF formulas for a SAT
solver. A variable is a positive integer id. A literal is `v` or `-v`. A
clause is a disjunction of literals. The model object keeps:

- the number of variables allocated so far (`vars`);
- a list of hard clauses (`cls`);
- a list of soft clauses (`soft`).

The Dafny modules follow the parts of that file:

- `Clauses` covers literals, clauses and assignments, and the clause
  constructors `encode_clause`, `encode_implication_clause`,
  `encode_implication`, `always_true` and `always_false`. Each constructor is
  a function whose contract gives its literals and its meaning under every
  assignment.
- `SatModel` covers class `model` as a Dafny class with the same fields, and
  its allocator `define_new_list` as a method that advances `vars` and
  returns the fresh block of ids.
- `AtMostOne` covers `encode_atmost_one`, the pairwise encoding. The method
  keeps the source's nested loops. Lemmas on the clause list it builds
  establish:
  - there are n(n-1)/2 clauses;
  - each clause is `-x[i] -x[k]` for a pair i < k;
  - the clauses appear in lexicographic pair order;
  - an assignment satisfies them exactly when at most one of `x` is true.
- `SumAtLeast` covers `encode_sum_at_least`, a sequential-counter encoding.
  - It allocates a (k+1) × n matrix `y` of fresh variables.
  - It appends five seed clauses and five nested-loop families of clauses.
  - Each family is appended by one generic loop method, with the source's own
    loop bounds and order.
  - The module also proves the allocation facts: fresh ids, one contiguous
    block per row, injectivity.
- `SumAtLeastCorrect` proves the properties of the at-least-k clause list:
  - how many clauses there are;
  - which clauses are forced at its head;
  - what each family means;
  - soundness: every satisfying assignment makes at least k of `x` true;
  - completeness: the running counts satisfy every clause;
  - equisatisfiability: suppose the model's clauses mention only allocated
    variables and every `x[i]` is already allocated (in 1..old vars). Then
    the clauses with the new ones added can be satisfied by extending an
    assignment exactly when that assignment satisfies the old clauses and
    makes at least k of `x` true.
- `Solution` covers `value_of`, which reads a variable's value from the
  solver's list of signed literals, including Python's negative indexing.

Clauses are modelled as sequences of literals rather than as the DIMACS text
the library concatenates. Assignments are functions from variable ids to
booleans.

## Model

| member | source | states |
|---|---|---|
| Clauses.Neg | teaching/2022-2023/sol_sat_lib.py:18-19 | The negation `-l` of a literal has the same variable and the other polarity, and holds exactly when `l` does not. |
| Clauses.EncodeClause | teaching/2022-2023/sol_sat_lib.py:74-79 | The clause is exactly the given literals, in order. It is satisfied exactly when some input literal holds. |
| Clauses.EncodeImplicationClause | teaching/2022-2023/sol_sat_lib.py:82-83 | The result is `-a` followed by the given clause. It is satisfied exactly when `a` implies the clause. |
| Clauses.EncodeImplication | teaching/2022-2023/sol_sat_lib.py:86-87 | The result is the two-literal clause `-a b`, satisfied exactly when `a` implies `b`. |
| Clauses.AlwaysTrue | teaching/2022-2023/sol_sat_lib.py:91-92 | The result is the unit clause `a`, satisfied exactly when `a` holds. |
| Clauses.AlwaysFalse | teaching/2022-2023/sol_sat_lib.py:96-97 | The result is the unit clause `-a`, satisfied exactly when `a` does not hold. |
| SatModel.Model.constructor | teaching/2022-2023/sol_sat_lib.py:21-28 | A new model has no name, no variables and no clauses, and is well formed. |
| SatModel.Model.DefineNewList | teaching/2022-2023/sol_sat_lib.py:30-33 | `vars` grows by `size`. The result is exactly the consecutive ids old vars + 1 .. old vars + size, in order (empty when size is 0). A value is in the result iff it lies in that range. Clauses and soft clauses are unchanged, and well-formedness is kept. |
| AtMostOne.EncodeAtMostOne | teaching/2022-2023/sol_sat_lib.py:101-105 | The method only appends: the new clause list is the old one followed by the pairwise clauses of `x`. `vars`, soft clauses and name are unchanged. If every `x[i]` is allocated, well-formedness is kept. |
| AtMostOne.AtMostOneCount | teaching/2022-2023/sol_sat_lib.py:102-105 | Twice the number of appended clauses is n(n-1). |
| AtMostOne.AtMostOneAt | teaching/2022-2023/sol_sat_lib.py:103-105 | For each pair i < k, the clause `-x[i] -x[k]` sits at position i(2n-i-1)/2 + (k-i-1). |
| AtMostOne.AtMostOneShape | teaching/2022-2023/sol_sat_lib.py:103-105 | Every appended clause is `-x[i] -x[k]` for some pair i < k. |
| AtMostOne.PairIndexOrder | teaching/2022-2023/sol_sat_lib.py:103-104 | Clause positions increase with the lexicographic order of the pairs. |
| AtMostOne.AtMostOneVars | teaching/2022-2023/sol_sat_lib.py:105 | Every literal of every appended clause has the variable of some `x[i]`. |
| AtMostOne.AtMostOneBounded | teaching/2022-2023/sol_sat_lib.py:105 | The appended clauses stay within any bound `vars` that covers `x`. |
| AtMostOne.AtMostOneSat | teaching/2022-2023/sol_sat_lib.py:100-105 | An assignment satisfies all appended clauses iff at most one literal of `x` is true. |
| SumAtLeast.AllocateCounter | teaching/2022-2023/sol_sat_lib.py:114-117 | Allocating `rows` lists of length n produces the counter matrix at the old `vars`, raises `vars` by rows·n and leaves the clauses alone. |
| SumAtLeast.AppendFamily | teaching/2022-2023/sol_sat_lib.py:139-166 | One nested-loop family appends exactly its clauses, column by column, and changes nothing else. |
| SumAtLeast.EncodeSumAtLeast | teaching/2022-2023/sol_sat_lib.py:111-168 | Given k > 1 and a non-empty `x`: `y` is the (k+1) × n counter matrix of fresh ids above the old `vars`, and `vars` grows by (k+1)·n. The clause list is the old one followed by the seeds and the five families; soft clauses and name are unchanged. If `x` is allocated, well-formedness is kept. |
| SumAtLeast.CounterFresh | teaching/2022-2023/sol_sat_lib.py:116-117 | The counter has k+1 rows. Every cell is a fresh id: above the old `vars` and at most old vars + rows·n. |
| SumAtLeast.CounterAt | teaching/2022-2023/sol_sat_lib.py:116-117 | Cell (j, i) is the id old vars + 1 + j·n + i; row j is the j-th contiguous block. |
| SumAtLeast.CounterInjective | teaching/2022-2023/sol_sat_lib.py:116-117 | Distinct cells of the counter have distinct ids. |
| SumAtLeast.CounterFlatten | teaching/2022-2023/sol_sat_lib.py:116-117 | Concatenating the rows gives exactly the consecutive ids old vars + 1 .. old vars + rows·n. |
| SumAtLeast.FamilyMember | teaching/2022-2023/sol_sat_lib.py:139-166 | A clause belongs to a family iff it is that family's clause for some (i, j) within the family's loop bounds. |
| SumAtLeast.SumAtLeastVars | teaching/2022-2023/sol_sat_lib.py:120-166 | Every literal of every appended clause has the variable of some `x[t]` or of some cell `y[j][i]`. |
| SumAtLeast.SumAtLeastBounded | teaching/2022-2023/sol_sat_lib.py:120-166 | If `x` and `y` are within `vars`, so are all the appended clauses. |
| SumAtLeastCorrect.SumAtLeastCount | teaching/2022-2023/sol_sat_lib.py:113-168 | The encoder appends 5 + n·k + 2(n-1)(k+1) + 2(n-1)k clauses. |
| SumAtLeastCorrect.FamilyLength | teaching/2022-2023/sol_sat_lib.py:139-166 | Each family has (column range) × (row range) clauses: n·k vertical; (n-1)(k+1) horizontal; (n-1)k diagonal-zero; (n-1)k for the first channeling family; (n-1)(k+1) for the second. |
| SumAtLeastCorrect.SumAtLeastForced | teaching/2022-2023/sol_sat_lib.py:120-137 | The first five clauses are `y[0][0]`, `y[k][n-1]`, `-x[0] y[1][0]`, `-y[1][0] x[0]` and `-y[2][0]`. |
| SumAtLeastCorrect.FamilyClauseMeaning | teaching/2022-2023/sol_sat_lib.py:139-166 | Each family clause is satisfied exactly when its intended implication holds. Those are y[j][i] → y[j-1][i], y[j][i] → y[j][i+1], ¬y[j][i] → ¬y[j+1][i+1], y[j][i] ∧ x[i+1] → y[j+1][i+1], and y[j][i] → x[i] ∨ y[j][i-1]. |
| SumAtLeastCorrect.FamilySat | teaching/2022-2023/sol_sat_lib.py:139-166 | A family is satisfied iff every cell's implication holds. |
| SumAtLeastCorrect.SeedSat | teaching/2022-2023/sol_sat_lib.py:120-137 | The seeds are satisfied iff y[0][0] and y[k][n-1] hold, y[1][0] equals x[0], and y[2][0] is false. |
| SumAtLeastCorrect.SumAtLeastSat | teaching/2022-2023/sol_sat_lib.py:120-166 | The appended clauses are satisfied iff the seeds and all five families hold. |
| SumAtLeastCorrect.ColumnSound | teaching/2022-2023/sol_sat_lib.py:129-166 | Under a satisfying assignment, y[j][i] implies that at least j of x[0..i] are true (by induction on i). |
| SumAtLeastCorrect.SumAtLeastSound | teaching/2022-2023/sol_sat_lib.py:110-168 | Soundness: any assignment satisfying all appended clauses makes at least k of `x` true, whatever ids `y` holds. |
| SumAtLeastCorrect.SumAtLeastComplete | teaching/2022-2023/sol_sat_lib.py:110-166 | Completeness: suppose at least k of `x` are true, and y[j][i] is true exactly when at least j of x[0..i] are. Then every appended clause is satisfied. |
| SumAtLeastCorrect.ExtensionRunning | teaching/2022-2023/sol_sat_lib.py:114-117 | Extending an assignment on the fresh counter ids to the running counts leaves variables 1..old vars unchanged. |
| SumAtLeastCorrect.ExtendsWhenEnough | teaching/2022-2023/sol_sat_lib.py:110-166 | With `x` allocated and at least k of `x` true, extending `a` with the running counts on the fresh ids keeps 1..old vars and satisfies every appended clause. |
| SumAtLeastCorrect.EnoughWhenExtends | teaching/2022-2023/sol_sat_lib.py:110-168 | With `x` allocated, any assignment that agrees with `a` on 1..old vars and satisfies the appended clauses shows that at least k of `x` are true under `a`. |
| SumAtLeastCorrect.SumAtLeastEquisatisfiable | teaching/2022-2023/sol_sat_lib.py:110-168 | Let every `x[i]` be allocated (in 1..old vars). Some assignment agreeing with `a` on 1..old vars satisfies the appended clauses iff at least k of `x` are true under `a`. |
| SumAtLeastCorrect.EncodeSumAtLeastModels | teaching/2022-2023/sol_sat_lib.py:110-168 | Suppose the old clauses are within the old `vars` and every `x[i]` is allocated (in 1..old vars). Extending `a` can satisfy the whole new clause list iff `a` satisfies the old clauses and makes at least k of `x` true. |
| Solution.PyIndex | teaching/2022-2023/sol_sat_lib.py:184 | Python indexing: a non-negative index is itself, a negative one counts from the end. |
| Solution.ValueOf | teaching/2022-2023/sol_sat_lib.py:182-186 | The result is 0 or 1. It is 1 exactly when the entry `sol[v-1]` is non-negative, read from the end when v < 1. |
| Solution.ValueOfAssignment | teaching/2022-2023/sol_sat_lib.py:182-186 | Solver output is the `v`-line numbers: entry t is ±(t+1), and the list ends with the closing 0. For every variable v it lists, value_of is 1 exactly when v is true, i.e. the entry is `v` rather than `-v`. |
| Solution.HoldsValueOf | teaching/2022-2023/sol_sat_lib.py:182-186 | A literal whose variable the solver output lists holds under that assignment iff value_of of its variable matches its polarity. |
| Solution.ValueOfExample | teaching/2022-2023/sol_sat_lib.py:182-186 | `[1, -2, 3, 0]`, what the line `v 1 -2 3 0` gives, is solver output. On it variables 1, 2, 3 read 1, 0, 1, and the trailing 0 reads 1. |

## Left out

- `write_cnf_file` and `write_wcnf_file` (lines 49-69): file output of the DIMACS header and clause text.
- `run_solver` (lines 190-214): it starts the external solver as a subprocess, reads its output file and stops the program with `exit()` on `UNSATISFIABLE`. The list of integers it returns is a parameter of `ValueOf`.
- `print_my_model` and `print_solution_values` (lines 35-46, 171-178): console output only.
- The globals `VERBOSITY`, `RUNSOLVER`, `SOLVERPATH` and the timing (lines 11-14): configuration and instrumentation.
- The text form of clauses: the constructors return the literal sequence, not the space-separated string ending in ` 0`. `EncodeImplicationClause` takes its clause argument as a literal sequence rather than as a text, so the exact spacing is left out.
- `cls`, `soft` and `vars` are class attributes in the source, which a fresh instance reads until it first assigns them; because `cls` is a shared list, appends reach every instance. The model gives each instance its own fields.
- Soft clauses are only a field: nothing in the library appends to them.
- Zero literals: `Lit` excludes 0, the DIMACS terminator. Every literal the encoders build is a variable id or its negation.
- SatModel.Model.DefineNewList: `size` is a `nat`. A negative size in the source would return an empty list and decrease `vars`. That case is left out.
- SumAtLeast.EncodeSumAtLeast: the source's `assert (k>1)` becomes the precondition `k > 1`. On an empty `x` the source fails at its first index, `y[0][0]` at line 120, because every row of `y` is empty; that case becomes the precondition `|x| >= 1`.
- Solution.ValueOf: a variable whose index lies outside the list raises an `IndexError` in the source; the precondition excludes it.
