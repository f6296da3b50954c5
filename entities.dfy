/**
 * The records the editor works on. Authors and affiliations are entries of
 * a positional list; an author links to affiliations by their positions.
 * The descriptive fields the formatters read (names, addresses, e-mail) are
 * kept as one opaque `name` string each; figures are not part of this model.
 */
module Entities {
  import opened PositionalList

  datatype Option<T> = None | Some(value: T)

  datatype AuthorInfo = AuthorInfo(name: string, affiliations: seq<int>)
  datatype AffiliationInfo = AffiliationInfo(name: string)
  type Author = Positioned<AuthorInfo>
  type Affiliation = Positioned<AffiliationInfo>

  /** A reference has no position the editor maintains. */
  datatype Reference = Reference(text: string)

  /** `state` is the empty string while unset. */
  datatype Abstract = Abstract(
    uuid: string,
    text: string,
    acknowledgements: string,
    state: string,
    authors: seq<Author>,
    affiliations: seq<Affiliation>,
    references: seq<Reference>)

  /** The blank records the model constructors produce. */
  const NewAuthor := AuthorInfo("", [])
  const NewAffiliation := AffiliationInfo("")
  const NewReference := Reference("")
  const NewAbstract := Abstract("", "", "", "", [], [], [])

  predicate NoDuplicates(links: seq<int>) {
    forall i, j :: 0 <= i < j < |links| ==> links[i] != links[j]
  }

  /** Every link denotes one of `n` affiliations, and none twice. */
  predicate ValidLinks(links: seq<int>, n: int) {
    (forall i :: 0 <= i < |links| ==> 0 <= links[i] < n) && NoDuplicates(links)
  }

  predicate LinksValid(authors: seq<Author>, n: int) {
    forall i :: 0 <= i < |authors| ==> ValidLinks(authors[i].data.affiliations, n)
  }

  /** Both lists numbered by index, and every author's links valid. */
  predicate WellFormed(a: Abstract) {
    Numbered(a.authors) && Numbered(a.affiliations) && LinksValid(a.authors, |a.affiliations|)
  }
}
