/**
 * The `useRows` hook with the React plumbing removed: every operation is a pure
 * transition on the hook's state. A transition applies what is handed to `setRows`
 * (an updater on the current list, or for `update` the caller's own array) and the
 * `change` calls on the form store together.
 */
module UseRows {
  import opened Wrappers
  import opened Splice
  import opened RowList
  import opened FormStore

  /**
   * The hook's state once effects have run: the row list, the form values, the current
   * `initialRows` prop, and whether the list is that very array (JavaScript reference
   * identity, which is what the dirty flag compares).
   */
  datatype State<R(==), V> = State(
    rows: seq<R>,
    store: Store<R, V>,
    initialRows: Option<seq<R>>,
    isInitialArray: bool)

  /** The list can only be the `initialRows` array if it has that array's contents. */
  predicate Valid<R(==), V>(s: State<R, V>) {
    s.isInitialArray ==> s.initialRows == Some(s.rows)
  }

  /** `getDirty()`: whether the list is a different array from `initialRows`. */
  function GetDirty<R(==), V>(s: State<R, V>): (dirty: bool)
    ensures Valid(s) && !dirty ==> s.initialRows == Some(s.rows)
  {
    !s.isInitialArray
  }

  /** `getRows()`: the current list. */
  function GetRows<R(==), V>(s: State<R, V>): (rows: seq<R>)
    // a clean hook hands back the contents of `initialRows`
    ensures Valid(s) && !GetDirty(s) ==> s.initialRows == Some(rows)
  {
    s.rows
  }

  /** `keyOrder` is the order in which `Object.keys` lists the keys of `store`. */
  predicate KeyOrder<R(==), V>(store: Store<R, V>, keyOrder: seq<R>) {
    Distinct(keyOrder) && (set k | k in keyOrder) == store.Keys
  }

  /** The first render: `initialRows`, or else the keys of the form values. */
  function FirstRender<R(==), V>(store: Store<R, V>, initialRows: Option<seq<R>>, keyOrder: seq<R>): (s: State<R, V>)
    requires KeyOrder(store, keyOrder)
    ensures Valid(s) && s.store == store && s.initialRows == initialRows
    ensures initialRows.Some? ==> s.rows == initialRows.value && !GetDirty(s)
    ensures initialRows.None? ==> Distinct(s.rows) && (set k | k in s.rows) == store.Keys && GetDirty(s)
  {
    State(initialRows.GetOr(keyOrder), store, initialRows, initialRows.Some?)
  }

  /**
   * The effect on `[initialRows]`: a new prop replaces the list wholesale. Arrays are
   * always truthy, so `initialRows ? initialRows : []` keeps any supplied array.
   */
  function Reseed<R(==), V>(s: State<R, V>, initialRows: Option<seq<R>>): (s': State<R, V>)
    ensures Valid(s') && s'.store == s.store && s'.initialRows == initialRows
    ensures initialRows.Some? ==> s'.rows == initialRows.value
    ensures initialRows.None? ==> s'.rows == []
    ensures GetDirty(s') <==> initialRows.None?
  {
    State(initialRows.GetOr([]), s.store, initialRows, initialRows.Some?)
  }

  /**
   * The hook after mounting: the first render followed by its effects. The mount run of
   * the `[initialRows]` effect discards the seed taken from the store's keys, so the list
   * is `initialRows`, or empty when there is none; without `initialRows` the hook reports
   * dirty from the start.
   */
  function Mount<R(==), V>(store: Store<R, V>, initialRows: Option<seq<R>>, keyOrder: seq<R>): (s: State<R, V>)
    requires KeyOrder(store, keyOrder)
    ensures s.rows == initialRows.GetOr([])
    ensures s.store == store && s.initialRows == initialRows && Valid(s)
    ensures GetDirty(s) <==> initialRows.None?
  {
    Reseed(FirstRender(store, initialRows, keyOrder), initialRows)
  }

  /** `push()`: the argument is ignored and a generated id is appended; the store is not written. */
  function Push<R(==), V>(s: State<R, V>, generated: R): (s': State<R, V>)
    ensures |s'.rows| == |s.rows| + 1
    ensures s'.rows[..|s.rows|] == s.rows && s'.rows[|s.rows|] == generated
    ensures multiset(s'.rows) == multiset(s.rows) + multiset{generated}
    ensures s'.store == s.store && s'.initialRows == s.initialRows && GetDirty(s')
  {
    s.(rows := s.rows + [generated], isInitialArray := false)
  }

  /** `remove(row)`: every occurrence is filtered out and the store key is set to null. */
  function Remove<R(==), V>(s: State<R, V>, row: R): (s': State<R, V>)
    ensures row !in s'.rows
    ensures multiset(s'.rows) == multiset(s.rows)[row := 0]
    ensures |s'.rows| == |s.rows| - multiset(s.rows)[row]
    ensures Subsequence(s'.rows, s.rows)
    // the store is cleared for `row` whether or not it was listed
    ensures Get(s'.store, row) == Some(Null) && s'.store - {row} == s.store - {row}
    ensures s'.initialRows == s.initialRows && GetDirty(s')
  {
    WithoutSubsequence(s.rows, row);
    State(Without(s.rows, row), Change(s.store, row, Some(Null)), s.initialRows, false)
  }

  /**
   * `unshift(newRow = generate(), values)`: the id is put first; the store is written
   * under it only when `values` is supplied.
   */
  function Unshift<R(==), V>(s: State<R, V>, newRow: Option<R>, generated: R, values: Option<V>): (s': State<R, V>)
    ensures |s'.rows| == |s.rows| + 1
    ensures s'.rows[0] == newRow.GetOr(generated) && s'.rows[1..] == s.rows
    ensures values.None? ==> s'.store == s.store
    ensures values.Some? ==>
      var key := newRow.GetOr(generated);
      Get(s'.store, key) == Some(Val(values.value)) && s'.store - {key} == s.store - {key}
    ensures s'.initialRows == s.initialRows && GetDirty(s')
  {
    var key := newRow.GetOr(generated);
    var store := if values.Some? then Change(s.store, key, Some(Val(values.value))) else s.store;
    State([key] + s.rows, store, s.initialRows, false)
  }

  /**
   * `update(newRows)`: the list becomes `newRows`; `isInitialArray` says whether the
   * caller handed back the `initialRows` array itself.
   */
  function Update<R(==), V>(s: State<R, V>, newRows: seq<R>, isInitialArray: bool): (s': State<R, V>)
    requires isInitialArray ==> s.initialRows == Some(newRows)
    ensures s'.rows == newRows && s'.store == s.store && s'.initialRows == s.initialRows
    ensures Valid(s')
    ensures GetDirty(s') <==> !isInitialArray
  {
    s.(rows := newRows, isInitialArray := isInitialArray)
  }

  /**
   * The index `copy` hands to `splice`: `position || findIndex(item => item === row)`.
   * A `position` of 0 cannot be told apart from one that was not supplied.
   */
  function CopyIndex<R(==)>(rows: seq<R>, row: R, position: int): (i: int)
    ensures position != 0 ==> i == position
    ensures position == 0 && row in rows ==> 0 <= i < |rows| && rows[i] == row && forall k :: 0 <= k < i ==> rows[k] != row
    ensures position == 0 && row !in rows ==> i == -1
  {
    if position != 0 then position else IndexOf(rows, row)
  }

  /**
   * `copy(row, newRow = generate(), position = 0)`: the new id is spliced in at the
   * copy index, and the store value of `row` (possibly `undefined`) is written under it.
   */
  function Copy<R(==), V>(s: State<R, V>, row: R, newRow: Option<R>, generated: R, position: int): (s': State<R, V>)
    ensures
      var k := ClampStart(|s.rows|, CopyIndex(s.rows, row, position));
      && |s'.rows| == |s.rows| + 1
      && s'.rows[k] == newRow.GetOr(generated)
      && s'.rows[..k] == s.rows[..k]
      && s'.rows[k + 1..] == s.rows[k..]
    ensures multiset(s'.rows) == multiset(s.rows) + multiset{newRow.GetOr(generated)}
    ensures
      var key := newRow.GetOr(generated);
      Get(s'.store, key) == Get(s.store, row) && s'.store - {key} == s.store - {key}
    ensures s'.initialRows == s.initialRows && GetDirty(s')
  {
    var key := newRow.GetOr(generated);
    var rows := SpliceInsert(s.rows, CopyIndex(s.rows, row, position), key);
    State(rows, Change(s.store, key, Get(s.store, row)), s.initialRows, false)
  }

  /**
   * `drag(dragRow, hoverRow)`: the first occurrences of the two ids change places; when
   * either is missing a copy of the list comes back unchanged. The store is not written.
   */
  function Drag<R(==), V>(s: State<R, V>, dragRow: R, hoverRow: R): (s': State<R, V>)
    ensures |s'.rows| == |s.rows| && multiset(s'.rows) == multiset(s.rows)
    ensures dragRow in s.rows && hoverRow in s.rows ==>
      var i := IndexOf(s.rows, dragRow);
      var j := IndexOf(s.rows, hoverRow);
      && s'.rows[i] == hoverRow && s'.rows[j] == dragRow
      && forall k :: 0 <= k < |s.rows| && k != i && k != j ==> s'.rows[k] == s.rows[k]
    ensures dragRow !in s.rows || hoverRow !in s.rows ==> s'.rows == s.rows
    ensures s'.store == s.store && s'.initialRows == s.initialRows && GetDirty(s')
  {
    var i := IndexOf(s.rows, dragRow);
    var j := IndexOf(s.rows, hoverRow);
    var rows := if i != -1 && j != -1 then Swap(s.rows, i, j) else s.rows;
    s.(rows := rows, isInitialArray := false)
  }

  /** `getRowIndex(row)`: a left-to-right scan for the first `===` match. */
  method GetRowIndex<R(==), V>(s: State<R, V>, row: R) returns (i: int)
    ensures -1 <= i < |s.rows|
    ensures i == -1 <==> row !in s.rows
    ensures 0 <= i ==> s.rows[i] == row && forall k :: 0 <= k < i ==> s.rows[k] != row
    ensures i == IndexOf(s.rows, row)
  {
    var n := 0;
    while n < |s.rows|
      invariant 0 <= n <= |s.rows|
      invariant forall k :: 0 <= k < n ==> s.rows[k] != row
    {
      if s.rows[n] == row {
        return n;
      }
      n := n + 1;
    }
    return -1;
  }

  /** A list reseeded to the same prop does not depend on what was there before: a full reset, not a merge. */
  lemma ReseedForgets<R, V>(s1: State<R, V>, s2: State<R, V>, initialRows: Option<seq<R>>)
    requires s1.store == s2.store
    ensures Reseed(s1, initialRows) == Reseed(s2, initialRows)
  {
  }

  /** Removing a freshly pushed id gives back the list. */
  lemma PushThenRemove<R, V>(s: State<R, V>, generated: R)
    requires generated !in s.rows
    ensures Remove(Push(s, generated), generated).rows == s.rows
  {
    WithoutAppend(s.rows, [generated], generated);
    WithoutUnchanged(s.rows, generated);
  }

  /** A freshly pushed id is found at the old length. */
  lemma PushThenIndex<R, V>(s: State<R, V>, generated: R)
    requires generated !in s.rows
    ensures IndexOf(Push(s, generated).rows, generated) == |s.rows|
  {
    assert Push(s, generated).rows[..|s.rows|] == s.rows;
  }

  /** Removing a freshly unshifted id gives back the list. */
  lemma UnshiftThenRemove<R, V>(s: State<R, V>, newRow: R, generated: R, values: Option<V>)
    requires newRow !in s.rows
    ensures Remove(Unshift(s, Some(newRow), generated, values), newRow).rows == s.rows
  {
    WithoutAppend([newRow], s.rows, newRow);
    WithoutUnchanged(s.rows, newRow);
  }

  /** The unshifted id is found at index 0. */
  lemma UnshiftThenIndex<R, V>(s: State<R, V>, newRow: Option<R>, generated: R, values: Option<V>)
    ensures IndexOf(Unshift(s, newRow, generated, values).rows, newRow.GetOr(generated)) == 0
  {
  }

  /** Removing twice is removing once, for the list and for the store. */
  lemma RemoveTwice<R, V>(s: State<R, V>, row: R)
    ensures Remove(Remove(s, row), row) == Remove(s, row)
  {
    WithoutIdempotent(s.rows, row);
    ChangeOverwrites(s.store, row, Some(Null), Some(Null));
  }

  /** Removing an id that is not listed keeps the list but still clears the store key. */
  lemma RemoveAbsent<R, V>(s: State<R, V>, row: R)
    requires row !in s.rows
    ensures Remove(s, row).rows == s.rows
    ensures Get(Remove(s, row).store, row) == Some(Null)
  {
    WithoutUnchanged(s.rows, row);
  }

  /** Without a position, the copy lands just before the first occurrence of its source. */
  lemma CopyBeforeSource<R, V>(s: State<R, V>, row: R, newRow: Option<R>, generated: R)
    requires row in s.rows
    ensures
      var i := IndexOf(s.rows, row);
      var rows := Copy(s, row, newRow, generated, 0).rows;
      rows[i] == newRow.GetOr(generated) && rows[i + 1] == row
  {
    var i := IndexOf(s.rows, row);
    var rows := Copy(s, row, newRow, generated, 0).rows;
    assert rows[i + 1..] == s.rows[i..];
    assert rows[i + 1] == rows[i + 1..][0];
  }

  /**
   * Without a position and with the source not listed, `findIndex` gives -1 and
   * `splice(-1, 0, id)` puts the copy just before the LAST element, not at the front.
   */
  lemma CopyMissingSource<R, V>(s: State<R, V>, row: R, newRow: Option<R>, generated: R)
    requires row !in s.rows && |s.rows| > 0
    ensures Copy(s, row, newRow, generated, 0).rows
      == s.rows[..|s.rows| - 1] + [newRow.GetOr(generated), s.rows[|s.rows| - 1]]
  {
    SpliceMinusOne(s.rows, newRow.GetOr(generated));
  }

  /** On an empty list the copy is the only row, whatever the position. */
  lemma CopyIntoEmpty<R, V>(s: State<R, V>, row: R, newRow: Option<R>, generated: R, position: int)
    requires s.rows == []
    ensures Copy(s, row, newRow, generated, position).rows == [newRow.GetOr(generated)]
  {
    SpliceIntoEmpty(CopyIndex(s.rows, row, position), newRow.GetOr(generated));
  }

  /** A position inside the list puts the copy exactly there. */
  lemma CopyAtPosition<R, V>(s: State<R, V>, row: R, newRow: Option<R>, generated: R, position: int)
    requires 0 < position <= |s.rows|
    ensures Copy(s, row, newRow, generated, position).rows[position] == newRow.GetOr(generated)
  {
  }

  /** Removing a fresh copy gives back the list. */
  lemma CopyThenRemove<R, V>(s: State<R, V>, row: R, newRow: R, generated: R, position: int)
    requires newRow !in s.rows
    ensures Remove(Copy(s, row, Some(newRow), generated, position), newRow).rows == s.rows
  {
    WithoutInsertAt(s.rows, ClampStart(|s.rows|, CopyIndex(s.rows, row, position)), newRow);
  }

  /** Copying a row onto itself leaves the store as it was. */
  lemma CopyOntoItself<R, V>(s: State<R, V>, row: R, position: int)
    ensures Copy(s, row, Some(row), row, position).store == s.store
  {
    ChangeSameValue(s.store, row);
  }

  /** On a list without duplicates, dragging the same pair twice restores the order. */
  lemma DragTwice<R, V>(s: State<R, V>, dragRow: R, hoverRow: R)
    requires Distinct(s.rows)
    ensures Drag(Drag(s, dragRow, hoverRow), dragRow, hoverRow).rows == s.rows
  {
    if dragRow in s.rows && hoverRow in s.rows {
      var i := IndexOf(s.rows, dragRow);
      var j := IndexOf(s.rows, hoverRow);
      var r := Swap(s.rows, i, j);
      assert Drag(s, dragRow, hoverRow).rows == r;
      SwapDistinct(s.rows, i, j);
      IndexOfDistinct(r, i);
      IndexOfDistinct(r, j);
      SwapTwice(s.rows, i, j);
    }
  }

  /** Dragging a row onto itself changes no position. */
  lemma DragOntoItself<R, V>(s: State<R, V>, row: R)
    ensures Drag(s, row, row).rows == s.rows
  {
  }
}
