/**
 * Single-element insertion with the index rules of `Array.prototype.splice(start, 0, item)`
 * (ECMA-262, 2023 edition, section 23.1.3.31): a negative start counts back from the end
 * and is floored at 0, a start past the end is clamped to the length. Only integer starts
 * are modelled.
 */
module Splice {

  /** The start index splice actually uses on an array of length `len`. */
  function ClampStart(len: nat, start: int): (k: nat)
    ensures k <= len
    // a start inside the array is used as given
    ensures 0 <= start <= len ==> k == start
    // a negative start counts back from the end ...
    ensures start < 0 && 0 <= len + start ==> len - k == -start
    // ... and stops at the front
    ensures len + start < 0 ==> k == 0
    // a start past the end appends
    ensures len < start ==> k == len
  {
    if start < 0 then
      if len + start < 0 then 0 else len + start
    else if start < len then start else len
  }

  /** `s` with `x` placed so that it ends up at index `k`. */
  function InsertAt<T>(s: seq<T>, k: nat, x: T): (r: seq<T>)
    requires k <= |s|
    ensures |r| == |s| + 1
    ensures r[k] == x
    ensures r[..k] == s[..k] && r[k + 1..] == s[k..]
    ensures multiset(r) == multiset(s) + multiset{x}
  {
    assert s == s[..k] + s[k..];
    s[..k] + [x] + s[k..]
  }

  /** `s` without its element at index `k`: the inverse of `InsertAt`. */
  function RemoveAt<T>(s: seq<T>, k: nat): (r: seq<T>)
    requires k < |s|
    ensures |r| == |s| - 1
    ensures r[..k] == s[..k] && r[k..] == s[k + 1..]
  {
    s[..k] + s[k + 1..]
  }

  /** Taking back what was inserted gives the original sequence. */
  lemma RemoveAtInsertAt<T>(s: seq<T>, k: nat, x: T)
    requires k <= |s|
    ensures RemoveAt(InsertAt(s, k, x), k) == s
  {
    var r := InsertAt(s, k, x);
    assert RemoveAt(r, k) == r[..k] + r[k + 1..];
    assert s == s[..k] + s[k..];
  }

  /** `a.splice(start, 0, x)` applied to a copy `a` of `s`. */
  function SpliceInsert<T>(s: seq<T>, start: int, x: T): (r: seq<T>)
    ensures |r| == |s| + 1
    ensures multiset(r) == multiset(s) + multiset{x}
    ensures
      var k := ClampStart(|s|, start);
      r[k] == x && r[..k] == s[..k] && r[k + 1..] == s[k..]
  {
    InsertAt(s, ClampStart(|s|, start), x)
  }

  /** `splice(-1, 0, x)` on a non-empty array puts `x` just before the last element. */
  lemma SpliceMinusOne<T>(s: seq<T>, x: T)
    requires |s| > 0
    ensures SpliceInsert(s, -1, x) == s[..|s| - 1] + [x, s[|s| - 1]]
  {
    var n := |s| - 1;
    assert s[n..] == [s[n]];
  }

  /** On an empty array every start index gives the one-element array. */
  lemma SpliceIntoEmpty<T>(start: int, x: T)
    ensures SpliceInsert([], start, x) == [x]
  {
  }
}
