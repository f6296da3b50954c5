/**
 * The editor's list operations on the edited abstract, one function each,
 * and what they keep: both lists numbered by index and every link valid
 * (the abstract stays WellFormed) -- except the removal of an affiliation
 * as written, for which a WellFormed abstract it breaks is exhibited.
 */
module DraftEdits {
  import opened JsArrays
  import opened PositionalList
  import opened Entities
  import opened CrossReference

  /** doEditAddAuthor: a blank author pushed with position = old length. */
  function AddAuthor(d: Abstract): (r: Abstract)
    ensures |r.authors| == |d.authors| + 1 && r.authors[..|d.authors|] == d.authors
    ensures r.authors[|d.authors|] == Positioned(|d.authors|, NewAuthor)
    ensures r.(authors := d.authors) == d
  {
    d.(authors := Appended(d.authors, NewAuthor))
  }

  /** doEditRemoveAuthor: splice at the author's position, then renumber every survivor. */
  function RemoveAuthor(d: Abstract, position: int): (r: Abstract)
    ensures Numbered(r.authors)
    ensures 0 <= position < |d.authors| ==>
      |r.authors| == |d.authors| - 1 &&
      forall i :: 0 <= i < |r.authors| ==> r.authors[i].data == d.authors[Skip(i, position)].data
    ensures r.(authors := d.authors) == d
  {
    d.(authors := Renumbered(Splice(d.authors, position)))
  }

  /** doEditAddAffiliation: a blank affiliation pushed with position = old length. */
  function AddAffiliation(d: Abstract): (r: Abstract)
    ensures |r.affiliations| == |d.affiliations| + 1 && r.affiliations[..|d.affiliations|] == d.affiliations
    ensures r.affiliations[|d.affiliations|] == Positioned(|d.affiliations|, NewAffiliation)
    ensures r.(affiliations := d.affiliations) == d
  {
    d.(affiliations := Appended(d.affiliations, NewAffiliation))
  }

  /** doEditRemoveAffiliation as the editor does it (links compared with removePos). */
  function RemoveAffiliationAsWritten(d: Abstract, position: int): (r: Abstract)
    ensures Numbered(r.affiliations)
    ensures 0 <= position < |d.affiliations| ==>
      |r.affiliations| == |d.affiliations| - 1 &&
      forall i :: 0 <= i < |r.affiliations| ==> r.affiliations[i].data == d.affiliations[Skip(i, position)].data
    ensures |r.authors| == |d.authors|
    ensures forall i :: 0 <= i < |r.authors| ==>
      r.authors[i].position == d.authors[i].position && r.authors[i].data.name == d.authors[i].data.name &&
      r.authors[i].data.affiliations == LinksAfterRemovalAsWritten(d.authors[i].data.affiliations, position)
    ensures r.(affiliations := d.affiliations, authors := d.authors) == d
  {
    d.(affiliations := Renumbered(Splice(d.affiliations, position)),
       authors := RelinkedAsWritten(d.authors, position))
  }

  /** doEditRemoveAffiliation as intended (links compared with the removed position). */
  function RemoveAffiliation(d: Abstract, position: int): (r: Abstract)
    ensures Numbered(r.affiliations)
    ensures 0 <= position < |d.affiliations| ==>
      |r.affiliations| == |d.affiliations| - 1 &&
      forall i :: 0 <= i < |r.affiliations| ==> r.affiliations[i].data == d.affiliations[Skip(i, position)].data
    ensures |r.authors| == |d.authors|
    ensures forall i :: 0 <= i < |r.authors| ==>
      r.authors[i].position == d.authors[i].position && r.authors[i].data.name == d.authors[i].data.name &&
      r.authors[i].data.affiliations == LinksAfterRemoval(d.authors[i].data.affiliations, position)
    ensures r.(affiliations := d.affiliations, authors := d.authors) == d
  {
    d.(affiliations := Renumbered(Splice(d.affiliations, position)),
       authors := Relinked(d.authors, position))
  }

  /** Author `i` with its links replaced by `links`. */
  function WithLinks(authors: seq<Author>, i: int, links: seq<int>): (r: seq<Author>)
    requires 0 <= i < |authors|
    ensures |r| == |authors| && r[i].data.affiliations == links
    ensures r[i].position == authors[i].position && r[i].data.name == authors[i].data.name
    ensures forall j :: 0 <= j < |r| && j != i ==> r[j] == authors[j]
  {
    authors[i := authors[i].(data := authors[i].data.(affiliations := links))]
  }

  /** doEditAddAuthorToAffiliation once the selected author `i` is known to exist. */
  function LinkAuthor(d: Abstract, i: int, p: int): (r: Abstract)
    requires 0 <= i < |d.authors|
    ensures |r.authors| == |d.authors| && p in r.authors[i].data.affiliations
    ensures p in d.authors[i].data.affiliations ==> r == d
    ensures p !in d.authors[i].data.affiliations ==>
      r.authors[i].data.affiliations == d.authors[i].data.affiliations + [p]
    ensures r.authors[i].position == d.authors[i].position && r.authors[i].data.name == d.authors[i].data.name
    ensures forall j :: 0 <= j < |r.authors| && j != i ==> r.authors[j] == d.authors[j]
    ensures r.(authors := d.authors) == d
  {
    d.(authors := WithLinks(d.authors, i, Linked(d.authors[i].data.affiliations, p)))
  }

  /** doEditRemoveAffiliationFromAuthor on author `i`. */
  function UnlinkAuthor(d: Abstract, i: int, p: int): (r: Abstract)
    requires 0 <= i < |d.authors|
    ensures |r.authors| == |d.authors| && p !in r.authors[i].data.affiliations
    ensures r.authors[i].data.affiliations == Without(d.authors[i].data.affiliations, p)
    ensures r.authors[i].position == d.authors[i].position && r.authors[i].data.name == d.authors[i].data.name
    ensures forall j :: 0 <= j < |r.authors| && j != i ==> r.authors[j] == d.authors[j]
    ensures r.(authors := d.authors) == d
  {
    d.(authors := WithLinks(d.authors, i, Without(d.authors[i].data.affiliations, p)))
  }

  /** doEditAddReference: one blank reference pushed. */
  function AddReference(d: Abstract): (r: Abstract)
    ensures |r.references| == |d.references| + 1 && r.references[..|d.references|] == d.references
    ensures r.(references := d.references) == d
  {
    d.(references := d.references + [NewReference])
  }

  /** doEditRemoveReference: `splice(index, 1)` on the references. */
  function RemoveReference(d: Abstract, index: int): (r: Abstract)
    ensures 0 <= index < |d.references| ==> r.references == RemoveAt(d.references, index)
    ensures r.(references := d.references) == d
  {
    d.(references := Splice(d.references, index))
  }

  // ---------------------------------------------------------------------
  // What the operations preserve

  lemma AddAuthorKeepsWellFormed(d: Abstract)
    requires WellFormed(d)
    ensures WellFormed(AddAuthor(d))
  {
  }

  /** Whatever position is passed, the survivors are renumbered and their links untouched. */
  lemma RemoveAuthorKeepsWellFormed(d: Abstract, position: int)
    requires WellFormed(d)
    ensures WellFormed(RemoveAuthor(d, position))
  {
    var t := Splice(d.authors, position);
    var r := RemoveAuthor(d, position).authors;
    forall i | 0 <= i < |r|
      ensures ValidLinks(r[i].data.affiliations, |d.affiliations|)
    {
      assert t[i] in t;
      var j :| 0 <= j < |d.authors| && d.authors[j] == t[i];
      assert r[i].data == t[i].data;
    }
  }

  lemma AddAffiliationKeepsWellFormed(d: Abstract)
    requires WellFormed(d)
    ensures WellFormed(AddAffiliation(d))
  {
    var r := AddAffiliation(d);
    forall i | 0 <= i < |r.authors|
      ensures ValidLinks(r.authors[i].data.affiliations, |r.affiliations|)
    {
      assert ValidLinks(d.authors[i].data.affiliations, |d.affiliations|);
    }
  }

  /** The intended removal keeps the abstract WellFormed. */
  lemma RemoveAffiliationKeepsWellFormed(d: Abstract, position: int)
    requires WellFormed(d) && 0 <= position < |d.affiliations|
    ensures WellFormed(RemoveAffiliation(d, position))
  {
    var r := RemoveAffiliation(d, position);
    forall i | 0 <= i < |r.authors|
      ensures ValidLinks(r.authors[i].data.affiliations, |r.affiliations|)
    {
      LinksAfterRemovalKeepTargets(d.affiliations, d.authors[i].data.affiliations, position);
    }
  }

  /**
   * The removal as written breaks a WellFormed abstract: with affiliations
   * 0 and 1 and one author linked to 0, removing affiliation 1 leaves that
   * author linked to -1.
   */
  lemma RemoveAffiliationAsWrittenBreaksWellFormed()
    ensures var d := NewAbstract.(
        authors := [Positioned(0, AuthorInfo("", [0]))],
        affiliations := [Positioned(0, NewAffiliation), Positioned(1, NewAffiliation)]);
      WellFormed(d) && !WellFormed(RemoveAffiliationAsWritten(d, 1))
      && RemoveAffiliationAsWritten(d, 1).authors[0].data.affiliations == [-1]
  {
    var d := NewAbstract.(
        authors := [Positioned(0, AuthorInfo("", [0]))],
        affiliations := [Positioned(0, NewAffiliation), Positioned(1, NewAffiliation)]);
    assert ValidLinks(d.authors[0].data.affiliations, |d.affiliations|);
    assert LinksAfterRemovalAsWritten([0], 1) == [-1] by {
      AsWrittenCounterexamples();
    }
    var r := RemoveAffiliationAsWritten(d, 1);
    assert r.authors[0].data.affiliations == [-1];
    assert !ValidLinks(r.authors[0].data.affiliations, |r.affiliations|);
  }

  /** Linking to an affiliation that is in the list keeps the abstract WellFormed. */
  lemma LinkAuthorKeepsWellFormed(d: Abstract, i: int, p: int)
    requires WellFormed(d) && 0 <= i < |d.authors| && 0 <= p < |d.affiliations|
    ensures WellFormed(LinkAuthor(d, i, p))
  {
    LinkKeepsValid(d.authors[i].data.affiliations, p, |d.affiliations|);
  }

  lemma UnlinkAuthorKeepsWellFormed(d: Abstract, i: int, p: int)
    requires WellFormed(d) && 0 <= i < |d.authors|
    ensures WellFormed(UnlinkAuthor(d, i, p))
  {
    WithoutKeepsValid(d.authors[i].data.affiliations, p, |d.affiliations|);
  }

  /** After linking, the author is among those getEditorAuthorsForAffiliation lists for `p`. */
  lemma LinkedAuthorIsListed(d: Abstract, i: int, p: int)
    requires 0 <= i < |d.authors|
    ensures var r := LinkAuthor(d, i, p).authors; r[i] in AuthorsForAffiliation(r, p)
  {
    var r := LinkAuthor(d, i, p).authors;
    assert r[i] in r;
  }
}
