/**
 * The positional list the editor keeps its authors and affiliations in:
 * every entry carries an explicit integer `position` that the editor keeps
 * equal to the entry's index, by appending with `position = length` and by
 * renumbering every survivor after a removal.
 */
module PositionalList {
  import opened JsArrays

  datatype Positioned<T> = Positioned(position: int, data: T)

  /** Positions are exactly the indices 0 .. |s| - 1. */
  predicate Numbered<T>(s: seq<Positioned<T>>) {
    forall i :: 0 <= i < |s| ==> s[i].position == i
  }

  /** The list after the `forEach(function (a, i) { a.position(i); })` pass. */
  function Renumbered<T>(s: seq<Positioned<T>>): (r: seq<Positioned<T>>)
    ensures |r| == |s| && Numbered(r)
    ensures forall i :: 0 <= i < |r| ==> r[i].data == s[i].data
  {
    seq(|s|, i requires 0 <= i < |s| => Positioned(i, s[i].data))
  }

  /** A new entry pushed with its position set to the old length. */
  function Appended<T>(s: seq<Positioned<T>>, item: T): (r: seq<Positioned<T>>)
    ensures |r| == |s| + 1 && r[..|s|] == s
    ensures r[|s|].position == |s| && r[|s|].data == item
    ensures Numbered(s) ==> Numbered(r)
  {
    s + [Positioned(|s|, item)]
  }

  /** The renumbering loop, written as the source writes it: one position at a time, in index order. */
  method Renumber<T>(s: seq<Positioned<T>>) returns (r: seq<Positioned<T>>)
    ensures r == Renumbered(s)
  {
    r := s;
    var i := 0;
    while i < |r|
      invariant 0 <= i <= |r| == |s|
      invariant forall j :: 0 <= j < i ==> r[j] == Positioned(j, s[j].data)
      invariant forall j :: i <= j < |r| ==> r[j] == s[j]
    {
      r := r[i := r[i].(position := i)];
      i := i + 1;
    }
  }

  /** The set of positions the entries hold. */
  function Positions<T>(s: seq<Positioned<T>>): set<int> {
    set i | 0 <= i < |s| :: s[i].position
  }

  /**
   * A numbered list holds exactly the positions 0 .. |s| - 1, each once:
   * no gap, and (as there are |s| entries) no duplicate.
   */
  lemma NumberedPositions<T>(s: seq<Positioned<T>>)
    requires Numbered(s)
    ensures forall x :: x in Positions(s) <==> 0 <= x < |s|
  {
    forall x | 0 <= x < |s|
      ensures x in Positions(s)
    {
      assert s[x].position == x;
    }
  }

  /**
   * Removing the entry at index `k` and renumbering keeps the survivors in
   * their old relative order and numbers them 0 .. |s| - 2.
   */
  lemma RemovalRenumbers<T>(s: seq<Positioned<T>>, k: int)
    requires 0 <= k < |s|
    ensures var r := Renumbered(Splice(s, k));
      |r| == |s| - 1 && Numbered(r) &&
      forall i :: 0 <= i < |r| ==> r[i] == Positioned(i, s[Skip(i, k)].data)
  {
  }

  /**
   * On a numbered list, renumbering every survivor to its index is the same
   * as lowering by one the position of every entry after the removed one and
   * keeping the others.
   */
  lemma RenumberingIsDecrementAfter<T>(s: seq<Positioned<T>>, k: int)
    requires Numbered(s) && 0 <= k < |s|
    ensures var r := Renumbered(Splice(s, k));
      |r| == |s| - 1 &&
      forall i :: 0 <= i < |r| ==>
        r[i].data == s[Skip(i, k)].data &&
        r[i].position == (if s[Skip(i, k)].position > k then s[Skip(i, k)].position - 1 else s[Skip(i, k)].position)
  {
    var r := Renumbered(Splice(s, k));
    forall i | 0 <= i < |r|
      ensures r[i].position == (if s[Skip(i, k)].position > k then s[Skip(i, k)].position - 1 else s[Skip(i, k)].position)
    {
      assert s[Skip(i, k)].position == Skip(i, k);
    }
  }
}
