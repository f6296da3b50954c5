/**
 * The two JavaScript array primitives the editor's list code is built on,
 * with their ECMAScript meaning: `indexOf` (strict equality, first match,
 * -1 when absent) and `splice(start, 1)` (a negative start counts from the
 * end, a start at or past the end removes nothing).
 */
module JsArrays {

  /** The index, before the removal of index `k`, of the element found at index `i` after it. */
  function Skip(i: int, k: int): int {
    if i < k then i else i + 1
  }

  /** The sequence without its element at index `k`. */
  function RemoveAt<T>(s: seq<T>, k: int): (r: seq<T>)
    requires 0 <= k < |s|
    ensures |r| == |s| - 1
    ensures forall i :: 0 <= i < |r| ==> r[i] == s[Skip(i, k)]
  {
    s[..k] + s[k + 1..]
  }

  /** The index `splice` starts at: a negative start is added to the length, then clamped into [0, len]. */
  function SpliceStart(len: nat, start: int): (k: nat)
    ensures k <= len
    ensures 0 <= start <= len ==> k == start
    ensures start > len ==> k == len
    ensures start < 0 && len + start >= 0 ==> k == len + start
    ensures len + start < 0 ==> k == 0
  {
    if start < 0 then (if len + start < 0 then 0 else len + start)
    else if start > len then len
    else start
  }

  /** `s.splice(start, 1)`: what is left of the array after removing at most one element. */
  function Splice<T>(s: seq<T>, start: int): (r: seq<T>)
    ensures 0 <= start < |s| ==> r == RemoveAt(s, start)
    ensures start >= |s| ==> r == s
    ensures -|s| <= start < 0 ==> r == RemoveAt(s, |s| + start)
    ensures start < -|s| && s != [] ==> r == s[1..]
    ensures forall x :: x in r ==> x in s
  {
    var k := SpliceStart(|s|, start);
    if k < |s| then RemoveAt(s, k) else s
  }

  /** `s.indexOf(x)`: the first index holding `x`, or -1. */
  function IndexOf(s: seq<int>, x: int): (k: int)
    ensures -1 <= k < |s|
    ensures k >= 0 ==> s[k] == x && x !in s[..k]
    ensures k == -1 <==> x !in s
  {
    if s == [] then -1
    else if s[0] == x then 0
    else
      var k := IndexOf(s[1..], x);
      assert s == [s[0]] + s[1..];
      if k < 0 then -1
      else
        assert s[..k + 1] == [s[0]] + s[1..][..k];
        k + 1
  }
}
