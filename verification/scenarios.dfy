/** Concrete runs of the hook on string row ids, including the edge cases of `copy`, `remove` and `drag`. */
module Scenarios {
  import opened Wrappers
  import opened RowList
  import opened FormStore
  import opened UseRows

  function StateOf(rows: seq<string>): State<string, int> {
    State(rows, map[], None, false)
  }

  /** Mount with `["a", "b"]`, push `"c"`, remove `"a"`: the store is cleared for `"a"`. */
  lemma PushThenRemoveScenario()
    ensures
      var s0: State<string, int> := Mount(map[], Some(["a", "b"]), []);
      var s1 := Push(s0, "c");
      var s2 := Remove(s1, "a");
      && !GetDirty(s0) && s1.rows == ["a", "b", "c"] && GetDirty(s1)
      && s2.rows == ["b", "c"] && Get(s2.store, "a") == Some(Null)
  {
    var s0: State<string, int> := Mount(map[], Some(["a", "b"]), []);
    var s1 := Push(s0, "c");
    assert s1.rows == ["a", "b", "c"];
    assert ["a", "b", "c"][1..] == ["b", "c"];
    assert ["b", "c"][1..] == ["c"];
    assert ["c"][1..] == [];
    assert Without(["c"], "a") == ["c"] + Without([], "a");
    assert Remove(s1, "a").rows == ["b"] + Without(["c"], "a");
  }

  /** `drag("b", "c")` on `["a", "b", "c"]`. */
  lemma DragScenario()
    ensures Drag(StateOf(["a", "b", "c"]), "b", "c").rows == ["a", "c", "b"]
  {
    assert IndexOf(["a", "b", "c"], "b") == 1;
    assert IndexOf(["a", "b", "c"], "c") == 2;
  }

  /** The first drag of `("a", "b")` on `["a", "a", "b"]` swaps positions 0 and 2. */
  lemma DragDuplicateFirst()
    ensures Drag(StateOf(["a", "a", "b"]), "a", "b") == StateOf(["b", "a", "a"])
  {
    var s0 := ["a", "a", "b"];
    assert s0[1..] == ["a", "b"] && s0[1..][1..] == ["b"];
    assert IndexOf(s0, "a") == 0;
    assert IndexOf(s0, "b") == 2;
    assert Swap(s0, 0, 2) == ["b", "a", "a"];
  }

  /** The second drag finds the second `"a"`, at position 1, and swaps it with position 0. */
  lemma DragDuplicateSecond()
    ensures Drag(StateOf(["b", "a", "a"]), "a", "b") == StateOf(["a", "b", "a"])
  {
    var s1 := ["b", "a", "a"];
    assert s1[1..] == ["a", "a"];
    assert IndexOf(s1, "a") == 1;
    assert IndexOf(s1, "b") == 0;
    assert Swap(s1, 1, 0) == ["a", "b", "a"];
  }

  /** With a duplicate, dragging the same pair twice does not restore the list. */
  lemma DragTwiceWithDuplicate()
    ensures Drag(Drag(StateOf(["a", "a", "b"]), "a", "b"), "a", "b").rows == ["a", "b", "a"]
  {
    DragDuplicateFirst();
    DragDuplicateSecond();
  }

  /** Copying a row that is not listed puts the copy before the last row, not first. */
  lemma CopyMissingScenario()
    ensures Copy(StateOf(["a", "b", "c"]), "z", Some("n"), "g", 0).rows == ["a", "b", "n", "c"]
  {
    CopyMissingSource(StateOf(["a", "b", "c"]), "z", Some("n"), "g");
  }

  /** Copying a listed row puts the copy in front of it. */
  lemma CopyPresentScenario()
    ensures Copy(StateOf(["a", "b", "c"]), "b", Some("n"), "g", 0).rows == ["a", "n", "b", "c"]
  {
    assert IndexOf(["a", "b", "c"], "b") == 1;
  }

  /** A negative position counts back from the end. */
  lemma CopyNegativePositionScenario()
    ensures Copy(StateOf(["a", "b", "c"]), "a", Some("n"), "g", -2).rows == ["a", "n", "b", "c"]
  {
  }

  /** `remove` drops every duplicate, not only the first. */
  lemma RemoveDuplicatesScenario()
    ensures Remove(StateOf(["a", "b", "a"]), "a").rows == ["b"]
  {
    assert ["a", "b", "a"][1..] == ["b", "a"];
    assert ["b", "a"][1..] == ["a"];
    assert ["a"][1..] == [];
    assert Without(["a", "b", "a"], "a") == Without(["b", "a"], "a");
    assert Without(["b", "a"], "a") == ["b"] + Without(["a"], "a");
  }

  /** On a one-row list a missing source still puts the copy first: `splice(-1)` normalises to 0. */
  lemma CopyMissingSingleRowScenario()
    ensures Copy(StateOf(["a"]), "z", Some("n"), "g", 0).rows == ["n", "a"]
  {
  }

  /** A duplicate does not always break the round trip: on `["a", "b", "a"]` two drags restore the list. */
  lemma DragTwiceRestoresDespiteDuplicate()
    ensures Drag(Drag(StateOf(["a", "b", "a"]), "a", "b"), "a", "b").rows == ["a", "b", "a"]
  {
    var s0 := ["a", "b", "a"];
    assert s0[1..] == ["b", "a"];
    assert IndexOf(s0, "a") == 0;
    assert IndexOf(s0, "b") == 1;
    assert Drag(StateOf(s0), "a", "b") == StateOf(["b", "a", "a"]);
    var s1 := ["b", "a", "a"];
    assert s1[1..] == ["a", "a"];
    assert IndexOf(s1, "a") == 1;
    assert IndexOf(s1, "b") == 0;
  }
}
