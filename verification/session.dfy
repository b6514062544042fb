/**
 * A run of the hook: a sequence of calls, each applied to the state the previous one
 * left. Properties here hold of whole runs: validity of the dirty flag, which store keys
 * can change, and what a run of drags keeps.
 */
module Session {
  import opened Wrappers
  import opened FormStore
  import UseRows

  /** One call on the hook, with the factory's result passed in as `generated`. */
  datatype Op<R, V> =
    | Push(generated: R)
    | Remove(row: R)
    | Unshift(newRow: Option<R>, generated: R, values: Option<V>)
    | Update(newRows: seq<R>, isInitialArray: bool)
    | Copy(row: R, newRow: Option<R>, generated: R, position: int)
    | Drag(dragRow: R, hoverRow: R)
    | Reseed(initialRows: Option<seq<R>>)

  /** `update` can only be handed the `initialRows` array if there is one with those contents. */
  predicate Allowed<R(==), V>(s: UseRows.State<R, V>, op: Op<R, V>) {
    op.Update? && op.isInitialArray ==> s.initialRows == Some(op.newRows)
  }

  function Apply<R(==), V>(s: UseRows.State<R, V>, op: Op<R, V>): UseRows.State<R, V>
    requires Allowed(s, op)
  {
    match op
    case Push(g) => UseRows.Push(s, g)
    case Remove(r) => UseRows.Remove(s, r)
    case Unshift(nr, g, vs) => UseRows.Unshift(s, nr, g, vs)
    case Update(rows, same) => UseRows.Update(s, rows, same)
    case Copy(r, nr, g, p) => UseRows.Copy(s, r, nr, g, p)
    case Drag(a, b) => UseRows.Drag(s, a, b)
    case Reseed(init) => UseRows.Reseed(s, init)
  }

  /** The store key a call may write through `change`, if any. */
  function WrittenKey<R, V>(op: Op<R, V>): Option<R> {
    match op
    case Remove(r) => Some(r)
    case Unshift(nr, g, vs) => if vs.Some? then Some(nr.GetOr(g)) else None
    case Copy(_, nr, g, _) => Some(nr.GetOr(g))
    case _ => None
  }

  /** The calls that build a fresh array from the current one. */
  predicate IsMutator<R, V>(op: Op<R, V>) {
    op.Push? || op.Remove? || op.Unshift? || op.Copy? || op.Drag?
  }

  /** One call: the store changes at most at its written key, and validity is kept. */
  lemma ApplyFrame<R, V>(s: UseRows.State<R, V>, op: Op<R, V>)
    requires Allowed(s, op)
    ensures WrittenKey(op).None? ==> Apply(s, op).store == s.store
    ensures WrittenKey(op).Some? ==>
      Apply(s, op).store - {WrittenKey(op).value} == s.store - {WrittenKey(op).value}
    ensures UseRows.Valid(s) ==> UseRows.Valid(Apply(s, op))
    ensures IsMutator(op) ==> UseRows.GetDirty(Apply(s, op))
    ensures !op.Reseed? ==> Apply(s, op).initialRows == s.initialRows
  {
  }

  /** Every call of a run is allowed in the state it meets. */
  predicate RunAllowed<R(==), V>(s: UseRows.State<R, V>, ops: seq<Op<R, V>>)
    decreases |ops|
  {
    |ops| == 0 || (Allowed(s, ops[0]) && RunAllowed(Apply(s, ops[0]), ops[1..]))
  }

  function Run<R(==), V>(s: UseRows.State<R, V>, ops: seq<Op<R, V>>): UseRows.State<R, V>
    requires RunAllowed(s, ops)
    decreases |ops|
  {
    if |ops| == 0 then s else Run(Apply(s, ops[0]), ops[1..])
  }

  /** Every key a run may write. */
  function WrittenKeys<R, V>(ops: seq<Op<R, V>>): set<R> {
    set i | 0 <= i < |ops| && WrittenKey(ops[i]).Some? :: WrittenKey(ops[i]).value
  }

  /** A run leaves every store key it never writes as it was. */
  lemma {:induction false} RunFrame<R, V>(s: UseRows.State<R, V>, ops: seq<Op<R, V>>)
    requires RunAllowed(s, ops)
    ensures Run(s, ops).store - WrittenKeys(ops) == s.store - WrittenKeys(ops)
    decreases |ops|
  {
    if |ops| > 0 {
      var t := Apply(s, ops[0]);
      RunFrame(t, ops[1..]);
      ApplyFrame(s, ops[0]);
      var w := WrittenKeys(ops);
      assert WrittenKeys(ops[1..]) <= w by {
        forall k | k in WrittenKeys(ops[1..])
          ensures k in w
        {
          var i :| 0 <= i < |ops[1..]| && WrittenKey(ops[1..][i]).Some? && WrittenKey(ops[1..][i]).value == k;
          assert ops[1..][i] == ops[i + 1];
        }
      }
      AgreeOutside(Run(t, ops[1..]).store, t.store, WrittenKeys(ops[1..]), w);
      if WrittenKey(ops[0]).Some? {
        var k := WrittenKey(ops[0]).value;
        assert k in w;
        AgreeOutside(t.store, s.store, {k}, w);
      }
    }
  }

  /** A run that starts valid stays valid, so a clean flag always means the `initialRows` contents. */
  lemma {:induction false} RunKeepsValid<R, V>(s: UseRows.State<R, V>, ops: seq<Op<R, V>>)
    requires RunAllowed(s, ops) && UseRows.Valid(s)
    ensures UseRows.Valid(Run(s, ops))
    ensures !UseRows.GetDirty(Run(s, ops)) ==> Run(s, ops).initialRows == Some(Run(s, ops).rows)
    decreases |ops|
  {
    if |ops| > 0 {
      ApplyFrame(s, ops[0]);
      RunKeepsValid(Apply(s, ops[0]), ops[1..]);
    }
  }

  /** A run of drags permutes the list and never touches the store. */
  lemma {:induction false} DragsPermute<R, V>(s: UseRows.State<R, V>, ops: seq<Op<R, V>>)
    requires forall i :: 0 <= i < |ops| ==> ops[i].Drag?
    ensures RunAllowed(s, ops)
    ensures multiset(Run(s, ops).rows) == multiset(s.rows)
    ensures Run(s, ops).store == s.store
    decreases |ops|
  {
    if |ops| > 0 {
      DragsPermute(Apply(s, ops[0]), ops[1..]);
    }
  }

  /** A run that ends with a list-building call leaves the hook dirty. */
  lemma MutatorLeavesDirty<R, V>(s: UseRows.State<R, V>, ops: seq<Op<R, V>>, op: Op<R, V>)
    requires RunAllowed(s, ops + [op]) && IsMutator(op)
    ensures UseRows.GetDirty(Run(s, ops + [op]))
  {
    RunSnoc(s, ops, op);
    ApplyFrame(Run(s, ops), op);
  }

  /** Running one more call is applying it to the run's result. */
  lemma {:induction false} RunSnoc<R, V>(s: UseRows.State<R, V>, ops: seq<Op<R, V>>, op: Op<R, V>)
    requires RunAllowed(s, ops + [op])
    ensures RunAllowed(s, ops) && Allowed(Run(s, ops), op)
    ensures Run(s, ops + [op]) == Apply(Run(s, ops), op)
    decreases |ops|
  {
    if |ops| > 0 {
      assert (ops + [op])[0] == ops[0];
      assert (ops + [op])[1..] == ops[1..] + [op];
      RunSnoc(Apply(s, ops[0]), ops[1..], op);
    } else {
      assert ops + [op] == [op];
      assert [op][1..] == [];
    }
  }
}
