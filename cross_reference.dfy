/**
 * The author-to-affiliation links: each author holds the positions of the
 * affiliations it belongs to. This module gives the list operations the
 * editor performs on one author's links, the lookup of the authors of an
 * affiliation, and the renumbering of links when an affiliation is removed,
 * both as the editor does it and as it is evidently meant.
 */
module CrossReference {
  import opened JsArrays
  import opened PositionalList
  import opened Entities

  // ---------------------------------------------------------------------
  // Lookup: getEditorAuthorsForAffiliation

  /**
   * The authors whose links contain `p`, in list order. Defined from the
   * back, as the forEach loop pushes matches onto the end of its result.
   */
  function AuthorsForAffiliation(authors: seq<Author>, p: int): (r: seq<Author>)
    ensures |r| <= |authors|
    ensures forall a :: a in r <==> a in authors && p in a.data.affiliations
  {
    if authors == [] then []
    else
      var n := |authors| - 1;
      assert authors == authors[..n] + [authors[n]];
      AuthorsForAffiliation(authors[..n], p)
        + (if IndexOf(authors[n].data.affiliations, p) >= 0 then [authors[n]] else [])
  }

  /** The authors' positions strictly increase along the list. */
  predicate InOrder(authors: seq<Author>) {
    forall i, j :: 0 <= i < j < |authors| ==> authors[i].position < authors[j].position
  }

  /**
   * On a numbered author list the lookup keeps list order: the positions of
   * the authors it returns strictly increase, so each author appears once.
   */
  lemma {:induction false} AuthorsForAffiliationInOrder(authors: seq<Author>, p: int)
    requires Numbered(authors)
    ensures InOrder(AuthorsForAffiliation(authors, p))
  {
    if authors != [] {
      var n := |authors| - 1;
      var front := authors[..n];
      assert Numbered(front);
      AuthorsForAffiliationInOrder(front, p);
      var r0 := AuthorsForAffiliation(front, p);
      forall a | a in r0
        ensures a.position < n
      {
        var k :| 0 <= k < |front| && front[k] == a;
      }
      var last := if IndexOf(authors[n].data.affiliations, p) >= 0 then [authors[n]] else [];
      var r := AuthorsForAffiliation(authors, p);
      assert r == r0 + last;
      forall i, j | 0 <= i < j < |r|
        ensures r[i].position < r[j].position
      {
        assert InOrder(r0);
        if j >= |r0| {
          assert r[i] == r0[i] && r[i] in r0 && r[j] == authors[n] && authors[n].position == n;
        } else {
          assert r[i] == r0[i] && r[j] == r0[j];
        }
      }
    }
  }

  // ---------------------------------------------------------------------
  // Adding a link: doEditAddAuthorToAffiliation

  /** Push `p` onto the links unless `indexOf` already finds it. */
  function Linked(links: seq<int>, p: int): (r: seq<int>)
    ensures p in r
    ensures p in links ==> r == links
    ensures p !in links ==> r == links + [p]
  {
    if IndexOf(links, p) < 0 then links + [p] else links
  }

  /** Linking twice is linking once. */
  lemma LinkIdempotent(links: seq<int>, p: int)
    ensures Linked(Linked(links, p), p) == Linked(links, p)
  {
  }

  /** Linking an author to one of `n` affiliations keeps its links valid. */
  lemma LinkKeepsValid(links: seq<int>, p: int, n: int)
    requires ValidLinks(links, n) && 0 <= p < n
    ensures ValidLinks(Linked(links, p), n)
  {
  }

  // ---------------------------------------------------------------------
  // Removing a link: doEditRemoveAffiliationFromAuthor

  /** The links with every occurrence of `p` dropped, the others in their order. */
  function Without(links: seq<int>, p: int): (r: seq<int>)
    ensures p !in r
    ensures multiset(r) == multiset(links)[p := 0]
  {
    if links == [] then []
    else
      assert links == [links[0]] + links[1..];
      (if links[0] == p then [] else [links[0]]) + Without(links[1..], p)
  }

  /** Dropping distributes over concatenation: the survivors keep their relative order. */
  lemma {:induction false} WithoutConcat(a: seq<int>, b: seq<int>, p: int)
    ensures Without(a + b, p) == Without(a, p) + Without(b, p)
  {
    if a == [] {
      assert a + b == b;
    } else {
      assert (a + b)[1..] == a[1..] + b;
      WithoutConcat(a[1..], b, p);
    }
  }

  /** Nothing to drop leaves the links as they are. */
  lemma {:induction false} WithoutAbsent(links: seq<int>, p: int)
    requires p !in links
    ensures Without(links, p) == links
  {
    if links != [] {
      WithoutAbsent(links[1..], p);
    }
  }

  /** Splicing out one occurrence of `p` does not change what dropping all of them gives. */
  lemma WithoutRemoveAt(links: seq<int>, k: int, p: int)
    requires 0 <= k < |links| && links[k] == p
    ensures Without(RemoveAt(links, k), p) == Without(links, p)
  {
    assert links == links[..k] + ([links[k]] + links[k + 1..]);
    WithoutConcat(links[..k], [links[k]] + links[k + 1..], p);
    WithoutConcat([links[k]], links[k + 1..], p);
    WithoutConcat(links[..k], links[k + 1..], p);
  }

  /** Dropping links never invalidates the rest. */
  lemma {:induction false} WithoutKeepsValid(links: seq<int>, p: int, n: int)
    requires ValidLinks(links, n)
    ensures ValidLinks(Without(links, p), n)
  {
    if links != [] {
      WithoutKeepsValid(links[1..], p, n);
      var rest := Without(links[1..], p);
      assert multiset(rest) == multiset(links[1..])[p := 0];
      assert links[0] !in links[1..];
      assert links[0] !in multiset(rest);
      forall x | x in rest
        ensures 0 <= x < n
      {
        assert x in multiset(rest);
        assert x in links[1..];
      }
    }
  }

  /**
   * The `while (indexOf(p) >= 0) splice(indexOf(p), 1)` loop. Each pass
   * shortens the list, so it stops; what it leaves is Without(links, p).
   */
  method StripAffiliation(links: seq<int>, p: int) returns (r: seq<int>)
    ensures r == Without(links, p)
  {
    r := links;
    while IndexOf(r, p) >= 0
      invariant Without(r, p) == Without(links, p)
      decreases |r|
    {
      var k := IndexOf(r, p);
      WithoutRemoveAt(r, k, p);
      r := Splice(r, k);
    }
    WithoutAbsent(r, p);
  }

  // ---------------------------------------------------------------------
  // Renumbering links after an affiliation is removed: doEditRemoveAffiliation

  /** The links with the first occurrence of `p`, if any, spliced out. */
  function Dropped(links: seq<int>, p: int): (r: seq<int>)
    ensures p in links ==> |r| == |links| - 1 && r == RemoveAt(links, IndexOf(links, p))
    ensures p !in links ==> r == links
  {
    var k := IndexOf(links, p);
    if k >= 0 then RemoveAt(links, k) else links
  }

  function Decremented(v: int, threshold: int): int {
    if v >= threshold then v - 1 else v
  }

  /** Every link at or above `threshold` lowered by one. */
  function DecrementFrom(links: seq<int>, threshold: int): (r: seq<int>)
    ensures |r| == |links|
    ensures forall i :: 0 <= i < |r| ==> r[i] == Decremented(links[i], threshold)
  {
    seq(|links|, i requires 0 <= i < |links| => Decremented(links[i], threshold))
  }

  /**
   * The editor's renumbering of one author's links when affiliation `p` is
   * removed: it compares the links with `removePos`, the INDEX at which `p`
   * was found in this author's list (-1 when absent), not with `p` itself.
   */
  function LinksAfterRemovalAsWritten(links: seq<int>, p: int): (r: seq<int>)
    ensures p !in links ==>
      |r| == |links| && forall i :: 0 <= i < |r| ==> r[i] == Decremented(links[i], -1)
    ensures p in links ==>
      var k := IndexOf(links, p);
      |r| == |links| - 1 && forall i :: 0 <= i < |r| ==> r[i] == Decremented(links[Skip(i, k)], k)
  {
    DecrementFrom(Dropped(links, p), IndexOf(links, p))
  }

  /** The evident intent: drop `p`, then lower every link above `p` by one. */
  function LinksAfterRemoval(links: seq<int>, p: int): (r: seq<int>)
    ensures p in links ==> |r| == |links| - 1
    ensures p !in links ==> |r| == |links|
    ensures NoDuplicates(links) ==>
      p !in Dropped(links, p) && forall i :: 0 <= i < |r| ==> Skip(r[i], p) == Dropped(links, p)[i]
  {
    DecrementFrom(Dropped(links, p), p + 1)
  }

  /** One author's links, renumbered by the editor's splice and `for` loop. */
  method RelinkAfterRemoval(links: seq<int>, p: int) returns (r: seq<int>)
    ensures r == LinksAfterRemovalAsWritten(links, p)
  {
    var removePos := IndexOf(links, p);
    r := links;
    if removePos >= 0 {
      r := Splice(r, removePos);
    }
    ghost var spliced := r;
    assert spliced == Dropped(links, p);
    var i := 0;
    while i < |r|
      invariant 0 <= i <= |r| == |spliced|
      invariant forall j :: 0 <= j < i ==> r[j] == Decremented(spliced[j], removePos)
      invariant forall j :: i <= j < |r| ==> r[j] == spliced[j]
    {
      if r[i] >= removePos {
        r := r[i := r[i] - 1];
      }
      i := i + 1;
    }
  }

  /** Every author's links renumbered as the editor does it. */
  function RelinkedAsWritten(authors: seq<Author>, p: int): (r: seq<Author>)
    ensures |r| == |authors|
    ensures forall i :: 0 <= i < |r| ==>
      r[i].position == authors[i].position && r[i].data.name == authors[i].data.name &&
      r[i].data.affiliations == LinksAfterRemovalAsWritten(authors[i].data.affiliations, p)
  {
    seq(|authors|, i requires 0 <= i < |authors| =>
      authors[i].(data := authors[i].data.(affiliations := LinksAfterRemovalAsWritten(authors[i].data.affiliations, p))))
  }

  /** Every author's links renumbered as intended. */
  function Relinked(authors: seq<Author>, p: int): (r: seq<Author>)
    ensures |r| == |authors|
    ensures forall i :: 0 <= i < |r| ==>
      r[i].position == authors[i].position && r[i].data.name == authors[i].data.name &&
      r[i].data.affiliations == LinksAfterRemoval(authors[i].data.affiliations, p)
  {
    seq(|authors|, i requires 0 <= i < |authors| =>
      authors[i].(data := authors[i].data.(affiliations := LinksAfterRemoval(authors[i].data.affiliations, p))))
  }

  /** The editor's `authors.forEach` pass over every author. */
  method RelinkAuthors(authors: seq<Author>, p: int) returns (r: seq<Author>)
    ensures r == RelinkedAsWritten(authors, p)
  {
    r := authors;
    var i := 0;
    while i < |r|
      invariant 0 <= i <= |r| == |authors|
      invariant forall j :: 0 <= j < i ==> r[j] == RelinkedAsWritten(authors, p)[j]
      invariant forall j :: i <= j < |r| ==> r[j] == authors[j]
    {
      var links := RelinkAfterRemoval(r[i].data.affiliations, p);
      r := r[i := r[i].(data := r[i].data.(affiliations := links))];
      i := i + 1;
    }
  }

  /** Splicing out the first `p` from valid links leaves valid links without `p`. */
  lemma DroppedKeepsValid(links: seq<int>, p: int, n: int)
    requires ValidLinks(links, n)
    ensures var w := Dropped(links, p); ValidLinks(w, n) && p !in w
  {
    var k := IndexOf(links, p);
    if k >= 0 {
      var w := RemoveAt(links, k);
      forall i | 0 <= i < |w|
        ensures w[i] != p
      {
        assert w[i] == links[Skip(i, k)] && Skip(i, k) != k;
      }
      forall i, j | 0 <= i < j < |w|
        ensures w[i] != w[j]
      {
        assert w[i] == links[Skip(i, k)] && w[j] == links[Skip(j, k)];
      }
    }
  }

  /**
   * Under the corrected rule the renumbered links are valid for the shorter
   * list, and each one, mapped back past the removed index, is the link it
   * came from.
   */
  lemma LinksAfterRemovalValid(links: seq<int>, p: int, n: int)
    requires ValidLinks(links, n) && 0 <= p < n
    ensures var r := LinksAfterRemoval(links, p);
      var w := Dropped(links, p);
      p !in w && |r| == |w| && ValidLinks(r, n - 1) &&
      forall i :: 0 <= i < |r| ==> Skip(r[i], p) == w[i]
  {
    var r := LinksAfterRemoval(links, p);
    var w := Dropped(links, p);
    DroppedKeepsValid(links, p, n);
    forall i | 0 <= i < |r|
      ensures 0 <= r[i] < n - 1 && Skip(r[i], p) == w[i]
    {
      assert w[i] != p;
    }
    forall i, j | 0 <= i < j < |r|
      ensures r[i] != r[j]
    {
      assert Skip(r[i], p) == w[i] && Skip(r[j], p) == w[j];
    }
  }

  /**
   * The intended renumbering keeps each author pointing at the same
   * affiliations: after `p` is removed from `affs` (and the rest renumbered),
   * link i of the result denotes the affiliation that the i-th surviving old
   * link denoted, and the links stay valid for the shorter list.
   */
  lemma LinksAfterRemovalKeepTargets(affs: seq<Affiliation>, links: seq<int>, p: int)
    requires ValidLinks(links, |affs|) && 0 <= p < |affs|
    ensures var r := LinksAfterRemoval(links, p);
      var w := Dropped(links, p);
      var after := Renumbered(Splice(affs, p));
      p !in w && |r| == |w| && ValidLinks(r, |after|) &&
      forall i :: 0 <= i < |r| ==> after[r[i]].data == affs[w[i]].data
  {
    var r := LinksAfterRemoval(links, p);
    var w := Dropped(links, p);
    var after := Renumbered(Splice(affs, p));
    LinksAfterRemovalValid(links, p, |affs|);
    forall i | 0 <= i < |r|
      ensures after[r[i]].data == affs[w[i]].data
    {
      assert after[r[i]].data == Splice(affs, p)[r[i]].data == affs[Skip(r[i], p)].data;
    }
  }

  /** When the author does not hold `p`, the editor lowers every link of -1 and above. */
  lemma AsWrittenLowersAllWhenAbsent(links: seq<int>, p: int)
    requires p !in links
    ensures var r := LinksAfterRemovalAsWritten(links, p);
      |r| == |links| && forall i :: 0 <= i < |r| && links[i] >= -1 ==> r[i] == links[i] - 1
  {
  }

  /**
   * Inputs on which the editor's renumbering departs from the intent:
   * links [1, 3] with affiliation 3 removed become [0] (the survivor now
   * denotes affiliation 0 instead of 1); links [0] with affiliation 1
   * removed become [-1], which denotes no affiliation at all; links [2, 0]
   * with affiliation 2 removed become [-1] as well; and links [0, 2, 1]
   * with affiliation 2 removed become [0, 0], one affiliation linked twice.
   */
  lemma AsWrittenCounterexamples()
    ensures LinksAfterRemovalAsWritten([1, 3], 3) == [0]
    ensures LinksAfterRemoval([1, 3], 3) == [1]
    ensures LinksAfterRemovalAsWritten([0], 1) == [-1] && !ValidLinks([-1], 1)
    ensures LinksAfterRemoval([0], 1) == [0]
    ensures LinksAfterRemovalAsWritten([2, 0], 2) == [-1]
    ensures LinksAfterRemoval([2, 0], 2) == [0]
    ensures LinksAfterRemovalAsWritten([0, 2, 1], 2) == [0, 0] && !NoDuplicates([0, 0])
    ensures LinksAfterRemoval([0, 2, 1], 2) == [0, 1]
  {
    assert IndexOf([1, 3], 3) == 1;
    assert Dropped([1, 3], 3) == [1];
    assert IndexOf([0], 1) == -1;
    assert IndexOf([2, 0], 2) == 0;
    assert Dropped([2, 0], 2) == [0];
    assert IndexOf([0, 2, 1], 2) == 1;
    assert Dropped([0, 2, 1], 2) == [0, 1];
    assert [0, 0][0] == [0, 0][1];
  }

  /** Links {1} with affiliation 0 removed become {0}, on both readings. */
  lemma RemovalAgreesOnSingleLink()
    ensures LinksAfterRemovalAsWritten([1], 0) == [0] == LinksAfterRemoval([1], 0)
  {
    assert IndexOf([1], 0) == -1;
  }
}
