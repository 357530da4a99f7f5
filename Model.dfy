/** The instance store of the SAT library: class `model` with its variable
    counter, its hard clauses and its soft clauses, and the variable
    allocator `define_new_list`. */
module SatModel {
  import opened Clauses

  /** The ids first, first + 1, ..., first + size - 1, in increasing order. */
  function Block(first: int, size: nat): (ids: seq<Lit>)
    requires first >= 1
  {
    seq(size, i requires 0 <= i < size => (first + i) as Lit)
  }

  class Model {
    var name: string
    /** The number of variables allocated so far; the ids in use are 1..vars. */
    var vars: nat
    /** The hard clauses. */
    var cls: seq<Clause>
    /** The soft clauses (nothing in the encoders appends to them). */
    var soft: seq<Clause>

    /** Every literal of every clause names an allocated variable. */
    predicate Valid()
      reads this
    {
      Bounded(cls, vars) && Bounded(soft, vars)
    }

    constructor ()
      ensures Valid()
      ensures name == "" && vars == 0 && cls == [] && soft == []
    {
      name, vars, cls, soft := "", 0, [], [];
    }

    /** define_new_list: allocate `size` fresh variables and return their ids. */
    method DefineNewList(size: nat) returns (ids: seq<Lit>)
      modifies this
      ensures vars == old(vars) + size
      ensures ids == Block(old(vars) + 1, size)
      ensures |ids| == size
      ensures forall i :: 0 <= i < size ==> ids[i] == old(vars) + 1 + i
      ensures forall v: int :: v in ids <==> old(vars) < v <= vars
      ensures cls == old(cls) && soft == old(soft) && name == old(name)
      ensures old(Valid()) ==> Valid()
    {
      var init := vars + 1;
      vars := vars + size;
      ids := Block(init, size);
      forall v: int | old(vars) < v <= vars
        ensures v in ids
      {
        assert ids[v - init] == v;
      }
    }
  }
}
