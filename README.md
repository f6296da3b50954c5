# Abstract editor: a Dafny model of `EditorViewModel`

This project models the view model behind the abstract editor of a
conference web application (`public/javascripts/editor.js`). A participant
uses the editor to create, edit, save, submit and withdraw a conference
abstract. The abstract has text, acknowledgements, a lifecycle `state`, and
ordered lists of authors, affiliations and references.

The model has three parts, plus a list layer under them:

- **Derived view state** (`ViewState`). The character budgets of the edited
  text (limit 2000) and acknowledgements (limit 200). The visibility of the
  save, submit and withdraw buttons.
- **Positional lists and cross references** (`JsArrays`, `PositionalList`,
  `CrossReference`, `DraftEdits`). Authors and affiliations carry an integer
  `position` that the editor keeps equal to the list index. Each author links
  to affiliations by position. Every `doEdit*` operation is a function on the
  edited abstract, with lemmas saying what it preserves.
- **Edit session** (`EditorSession.Editor`). A class holding the saved
  abstract (`abstr`), the edited abstract (`edited`) and the
  `isAbstractSaved` flag (`saved`). Its methods follow the source's
  `do*` functions step by step.

The source sometimes stores the same object in `abstract` and
`editedAbstract`: after creating a blank abstract, after loading one, and
after `doEndEdit` in an unsaved session. The model keeps a flag `aliased` for
this. While it is set, every edit of the edited abstract is also an edit of
the saved one, and a state write on the saved abstract also reaches the
edited one. `doStartEdit`'s deep copy and a successful save clear the flag.

The record store's answers are parameters (`Reply`: `Delivered(record)` or
`Failed`). Each session method returns an `Outcome`:

- `Done`: finished without a store call;
- `Sent(request, stored)`: sent a store request (`Update` for a PUT, `Create`
  for a POST), and whether it succeeded;
- `Thrown(error)`: the source would throw. `NullAbstract` is the TypeError
  from dereferencing a null abstract. `MissingIdentifiers` is the throw in
  `doSaveAbstract`. `InvalidSelection` is the throw in
  `doEditAddAuthorToAffiliation`.

JavaScript's `indexOf` and `splice(start, 1)` are modelled with their
ECMAScript meaning. A string's `length` is its number of UTF-16 code units,
so a character above U+FFFF counts twice. A negative `splice` start counts from the end. A start at
or past the end removes nothing.

Where the system's design description and the code disagree, the model
follows the code:

- Removing an affiliation is described as "decrement every link greater than
  the removed position". The code compares links with the index where the
  position was found in the author's list. See Findings.
- Submit and withdraw from an unsuitable state are described as an error. The
  code writes the new state without any check, and only the buttons gate it.
  The model has no such error.
- Removing a list entry is described as decrementing the positions after it.
  The code renumbers every survivor to its index. The two agree on a numbered
  list, which `PositionalList.RenumberingIsDecrementAfter` states.
- Loading an abstract is described as giving a saved copy and a draft. The
  code shares one object between them, which the model tracks with
  `aliased`.

## Model

| member | source | states |
|---|---|---|
| `JsArrays.RemoveAt` | public/javascripts/editor.js:293 | removing index k gives length − 1; survivor i is the old element at i (i < k) or i + 1 |
| `JsArrays.SpliceStart` | public/javascripts/editor.js:396 | the ECMAScript start of `splice`: a start within [0, len] is kept, a start past the end becomes len, a negative start is added to len and clamped at 0; never beyond len |
| `JsArrays.Splice` | public/javascripts/editor.js:396 | `splice(start, 1)`: an in-range start removes that index; a start at or past the end removes nothing; a negative start counts from the end and is clamped to 0; nothing new appears |
| `JsArrays.IndexOf` | public/javascripts/editor.js:321 | `indexOf`: −1 exactly when absent; otherwise an index holding the value with no earlier occurrence |
| `PositionalList.Renumbered` | public/javascripts/editor.js:294-296 | renumbering keeps length and data and numbers the entries 0..n−1 |
| `PositionalList.Renumber` | public/javascripts/editor.js:294-296 | the `forEach` renumbering loop computes exactly `Renumbered` |
| `PositionalList.Appended` | public/javascripts/editor.js:282-286 | a push with position = old length: one entry added at the end, earlier entries unchanged, numbering preserved |
| `PositionalList.NumberedPositions` | public/javascripts/editor.js:284 | a numbered list holds exactly the positions 0..n−1, with no gap and no duplicate |
| `PositionalList.RemovalRenumbers` | public/javascripts/editor.js:289-299 | removing index k and renumbering gives n−1 entries numbered 0..n−2, survivors in their old order |
| `PositionalList.RenumberingIsDecrementAfter` | public/javascripts/editor.js:289-299 | on a numbered list, renumbering the survivors to their indices is the same as lowering by one every position greater than the removed one and keeping the others |
| `CrossReference.AuthorsForAffiliation` | public/javascripts/editor.js:112-125 | an author is listed iff it is one of the authors and its links hold the position; never longer than the author list |
| `CrossReference.AuthorsForAffiliationInOrder` | public/javascripts/editor.js:112-125 | on a numbered author list the result keeps list order: positions strictly increase, so each author appears once; with `AuthorsForAffiliation` this makes the result exactly the matching authors, in order |
| `CrossReference.Linked` | public/javascripts/editor.js:354-355 | afterwards the position is linked; it is appended iff it was absent, otherwise the links are unchanged |
| `CrossReference.LinkIdempotent` | public/javascripts/editor.js:354-359 | linking twice is the same as linking once |
| `CrossReference.LinkKeepsValid` | public/javascripts/editor.js:346-365 | linking to an existing affiliation keeps an author's links in range and free of duplicates |
| `CrossReference.Without` | public/javascripts/editor.js:378-382 | the position no longer occurs; every other link keeps its multiplicity |
| `CrossReference.WithoutConcat` | public/javascripts/editor.js:378-382 | unlinking distributes over concatenation, so the remaining links keep their relative order |
| `CrossReference.WithoutAbsent` | public/javascripts/editor.js:378 | when the position is absent, the links are left as they are (the loop's exit) |
| `CrossReference.WithoutRemoveAt` | public/javascripts/editor.js:379 | splicing out one occurrence does not change the final unlinked list (the loop's step) |
| `CrossReference.WithoutKeepsValid` | public/javascripts/editor.js:374-385 | unlinking keeps an author's links in range and free of duplicates |
| `CrossReference.StripAffiliation` | public/javascripts/editor.js:374-385 | the `while` loop terminates (each pass shortens the list) and leaves exactly `Without(links, p)` |
| `CrossReference.Dropped` | public/javascripts/editor.js:320-325 | when the position is present, exactly its first occurrence (the `indexOf` index) is spliced out and the other links keep their order; when absent, the links are unchanged |
| `CrossReference.DecrementFrom` | public/javascripts/editor.js:327-331 | same length; each link at or above the threshold is lowered by one, the others are unchanged |
| `CrossReference.LinksAfterRemovalAsWritten` | public/javascripts/editor.js:320-331 | as written: an author without the position keeps every link, each lowered when ≥ −1; an author holding it at index k loses that link, and each survivor is lowered when it is ≥ k (the index, not the position) |
| `CrossReference.LinksAfterRemoval` | public/javascripts/editor.js:320-331 | as intended: one link fewer when the position was held; on duplicate-free links the position is gone and every new link, mapped back past the removed position, is the old link it came from |
| `CrossReference.RelinkAfterRemoval` | public/javascripts/editor.js:320-333 | the splice and `for` loop on one author compute `LinksAfterRemovalAsWritten` (threshold `removePos`) |
| `CrossReference.RelinkedAsWritten` | public/javascripts/editor.js:319-334 | every author keeps its position and name, and its links become `LinksAfterRemovalAsWritten` of its old links |
| `CrossReference.Relinked` | public/javascripts/editor.js:319-334 | every author keeps its position and name, and its links become `LinksAfterRemoval` of its old links |
| `CrossReference.RelinkAuthors` | public/javascripts/editor.js:319-334 | the `authors.forEach` pass computes exactly `RelinkedAsWritten` |
| `CrossReference.DroppedKeepsValid` | public/javascripts/editor.js:320-325 | from valid links, splicing out the first occurrence leaves valid links that no longer contain it |
| `CrossReference.LinksAfterRemovalValid` | public/javascripts/editor.js:321-331 | corrected rule: the removed position is gone, one link per surviving link, all valid and distinct for the shorter list, and each maps back past the removed index to the link it came from |
| `CrossReference.LinksAfterRemovalKeepTargets` | public/javascripts/editor.js:309-337 | corrected rule: links stay valid for the shorter list, and each denotes the same affiliation as before |
| `CrossReference.AsWrittenLowersAllWhenAbsent` | public/javascripts/editor.js:321-331 | as written, an author without the removed affiliation has every link ≥ −1 lowered by one |
| `CrossReference.AsWrittenCounterexamples` | public/javascripts/editor.js:321-331 | as written: [1,3] minus 3 gives [0] (intended [1]); [0] minus 1 gives [−1] (intended [0]); [2,0] minus 2 gives [−1] (intended [0]); [0,2,1] minus 2 gives [0,0], a duplicate link (intended [0,1]) |
| `CrossReference.RemovalAgreesOnSingleLink` | public/javascripts/editor.js:309-337 | links {1} with affiliation 0 removed become {0} under both rules |
| `DraftEdits.AddAuthor` | public/javascripts/editor.js:282-286 | one blank author appended with position = old length; earlier authors and all other fields unchanged |
| `DraftEdits.RemoveAuthor` | public/javascripts/editor.js:289-299 | the authors come out numbered 0..n-1 whatever position is passed; an in-range position removes exactly that author, the survivors keeping their order and data; nothing but the author list changes |
| `DraftEdits.AddAffiliation` | public/javascripts/editor.js:302-306 | one blank affiliation appended with position = old length; earlier affiliations and other fields unchanged |
| `DraftEdits.RemoveAffiliationAsWritten` | public/javascripts/editor.js:309-337 | the affiliations come out numbered 0..n-1; an in-range position removes exactly that affiliation, the survivors keeping their order and data; every author keeps its position and name and its links become `LinksAfterRemovalAsWritten`; only affiliations and authors change |
| `DraftEdits.RemoveAffiliation` | public/javascripts/editor.js:309-337 | the corrected removal: affiliations numbered, an in-range position removes exactly that affiliation with the survivors in order; every author keeps its position and name and its links become `LinksAfterRemoval`; only the two lists change |
| `DraftEdits.LinkAuthor` | public/javascripts/editor.js:346-365 | the affiliation is among the author's links afterwards; if it already was nothing changes, otherwise it is appended at the end; every other author and every other field is unchanged |
| `DraftEdits.UnlinkAuthor` | public/javascripts/editor.js:374-385 | afterwards the position is not among that author's links, which are the old links with every occurrence of it dropped; every other author and every other field is unchanged |
| `DraftEdits.AddReference` | public/javascripts/editor.js:388-390 | exactly one reference appended; earlier references and other fields unchanged |
| `DraftEdits.RemoveReference` | public/javascripts/editor.js:393-399 | an in-range index removes exactly that reference, the others in order; only references change |
| `DraftEdits.AddAuthorKeepsWellFormed` | public/javascripts/editor.js:282-286 | adding an author keeps the abstract well formed (both lists numbered, links valid) |
| `DraftEdits.RemoveAuthorKeepsWellFormed` | public/javascripts/editor.js:289-299 | removing an author, at any position, keeps the abstract well formed |
| `DraftEdits.AddAffiliationKeepsWellFormed` | public/javascripts/editor.js:302-306 | adding an affiliation keeps the abstract well formed |
| `DraftEdits.RemoveAffiliationKeepsWellFormed` | public/javascripts/editor.js:309-337 | the corrected removal of an existing affiliation keeps the abstract well formed |
| `DraftEdits.RemoveAffiliationAsWrittenBreaksWellFormed` | public/javascripts/editor.js:309-337 | a well-formed abstract that the as-written removal leaves with a link of −1 |
| `DraftEdits.LinkAuthorKeepsWellFormed` | public/javascripts/editor.js:346-365 | linking an existing author to an existing affiliation keeps the abstract well formed |
| `DraftEdits.UnlinkAuthorKeepsWellFormed` | public/javascripts/editor.js:374-385 | unlinking keeps the abstract well formed |
| `DraftEdits.LinkedAuthorIsListed` | public/javascripts/editor.js:346-365 | after linking, the author is among the authors listed for that affiliation |
| `ViewState.Utf16Length` | public/javascripts/editor.js:34 | JavaScript string `length`: between the number of characters and twice it, equal to it when every character is at most U+FFFF, and 0 exactly for the empty string; a single character counts 2 above U+FFFF and 1 otherwise |
| `ViewState.Utf16LengthConcat` | public/javascripts/editor.js:34 | the UTF-16 length of a concatenation is the sum of the lengths; with the one-character case of `Utf16Length` (2 above U+FFFF, else 1) this fixes the exact length of every string |
| `ViewState.TextCharactersLeft` | public/javascripts/editor.js:31-40 | 2000 without a draft, otherwise 2000 less the text's UTF-16 length (an empty text gives 2000 either way); never above 2000 |
| `ViewState.AckCharactersLeft` | public/javascripts/editor.js:42-51 | 200 without a draft, otherwise 200 less the acknowledgements' UTF-16 length; never above 200 |
| `ViewState.TextBudget` | public/javascripts/editor.js:31-40 | not clamped: negative iff the text is over 2000 UTF-16 units; for text within U+0000..U+FFFF the budget is 2000 − number of characters; always between 2000 − 2·chars and 2000 − chars |
| `ViewState.AckBudget` | public/javascripts/editor.js:42-51 | the same rule with limit 200 for the acknowledgements |
| `ViewState.AstralCharacterCountsTwice` | public/javascripts/editor.js:34 | a text of the one character U+1D465 leaves 1998, a text of "x" leaves 1999 |
| `ViewState.ShowButtonSave` | public/javascripts/editor.js:53-65 | shown only with an abstract; always for an abstract not yet saved; never for a saved abstract that is Submitted or InReview |
| `ViewState.ShowButtonSubmit` | public/javascripts/editor.js:67-79 | shown only for a saved abstract, and then save is shown too; never before the first save |
| `ViewState.ShowButtonWithdraw` | public/javascripts/editor.js:81-91 | shown only for a saved abstract, and then neither save nor submit is shown |
| `ViewState.NoButtonsWithoutAbstract` | public/javascripts/editor.js:53-91 | with no abstract, none of the three buttons is shown |
| `ViewState.SubmitImpliesSave` | public/javascripts/editor.js:53-79 | whenever submit is shown, save is shown |
| `ViewState.SubmitExcludesWithdraw` | public/javascripts/editor.js:67-91 | submit and withdraw are never both shown |
| `ViewState.UnsavedOffersOnlySave` | public/javascripts/editor.js:53-91 | an unsaved abstract, in any state, offers save only |
| `ViewState.SavedButtonsByState` | public/javascripts/editor.js:53-91 | saved: unset or InPreparation offer save and submit; Submitted or InReview offer withdraw only; other states offer nothing |
| `EditorSession.Editor.constructor` | public/javascripts/editor.js:13-29 | starts with no abstract, no edited abstract, not saved |
| `EditorSession.Truthy` | public/javascripts/editor.js:96-99 | JavaScript truthiness of an id: true only for a present, non-empty string; false for null and for "" |
| `EditorSession.SaveBody` | public/javascripts/editor.js:204-206 | the body `doSaveAbstract` sends: the argument when it is an abstract, otherwise the saved abstract; absent only when both are |
| `EditorSession.Editor.Init` | public/javascripts/editor.js:94-105 | with an abstract id, a fetched abstract becomes both fields (shared), and the session is saved even if the fetch failed; without one, a shared blank abstract, not saved |
| `EditorSession.Editor.SetDraft` | public/javascripts/editor.js:104 | an edit of the edited abstract also reaches the saved abstract exactly when the two are shared |
| `EditorSession.Editor.SaveAbstract` | public/javascripts/editor.js:202-246 | saved: PUT to the saved abstract's uuid; else with a conference id: POST; else throws. The body is the argument, or the saved abstract when there is none. Success: server copy saved, `saved` set. Failure or throw: nothing changes |
| `EditorSession.Editor.SetStateAndSave` | public/javascripts/editor.js:249-258 | writes the state (into the edited abstract too when shared), then saves; a failed save keeps the written state |
| `EditorSession.Editor.SubmitAbstract` | public/javascripts/editor.js:249-252 | state "Submitted" written before the save and kept if the save fails; no check of the previous state |
| `EditorSession.Editor.WithdrawAbstract` | public/javascripts/editor.js:255-258 | state "Withdrawn" written before the save and kept if the save fails |
| `EditorSession.Editor.StartEdit` | public/javascripts/editor.js:261-267 | the edited abstract becomes an equal, unshared copy of the saved one; throws without a saved abstract |
| `EditorSession.Editor.EndEdit` | public/javascripts/editor.js:270-279 | unsaved: the edited abstract becomes the saved one (shared), with no store call; saved: the edited abstract is PUT, and on success the server copy is saved |
| `EditorSession.Editor.GetEditorAuthorsForAffiliation` | public/javascripts/editor.js:112-125 | the loop returns exactly `AuthorsForAffiliation` of the edited authors; with no edited abstract, the TypeError |
| `EditorSession.Editor.EditAddAuthor` | public/javascripts/editor.js:282-286 | the edited abstract becomes `AddAuthor` of the old one |
| `EditorSession.Editor.EditRemoveAuthor` | public/javascripts/editor.js:289-299 | the edited abstract becomes `RemoveAuthor` at the author's position |
| `EditorSession.Editor.EditAddAffiliation` | public/javascripts/editor.js:302-306 | the edited abstract becomes `AddAffiliation` of the old one |
| `EditorSession.Editor.EditRemoveAffiliation` | public/javascripts/editor.js:309-337 | the edited abstract becomes `RemoveAffiliationAsWritten` at the affiliation's position |
| `EditorSession.Editor.EditAddAuthorToAffiliation` | public/javascripts/editor.js:346-365 | a selection outside [0, number of authors) throws and changes nothing; otherwise `LinkAuthor`, after which the author is listed for the affiliation |
| `EditorSession.Editor.EditRemoveAffiliationFromAuthor` | public/javascripts/editor.js:374-385 | the edited abstract becomes `UnlinkAuthor`: no occurrence of the position remains in that author's links |
| `EditorSession.Editor.EditAddReference` | public/javascripts/editor.js:388-390 | the edited abstract becomes `AddReference` of the old one |
| `EditorSession.Editor.EditRemoveReference` | public/javascripts/editor.js:393-399 | the edited abstract becomes `RemoveReference` at the index |

Every `EditorSession.Editor` method also states that `saved` and `aliased`
change only as described, and that the saved abstract changes with the
edited one only while they are shared.

## Left out

- `requestConference` (lines 128-147): the loaded conference is only
  displayed and nothing in the core reads it, so it is not part of this
  model. `requestAbstract` (lines 150-170) is `Init`'s `fetched` parameter.
- The HTTP transport of `doSaveAbstract`: URLs, JSON encoding and headers.
  The model keeps which request is sent and to which uuid or conference.
- `doFigureUpload` (lines 173-199): multipart network I/O and `alert`.
  Figures are not part of the `Abstract` datatype.
- DOM and jQuery reads. The focus call in `doStartEdit` is left out. The
  author `<select>` value (line 347) is the `selected` integer parameter.
  The JavaScript string-to-number coercion in its comparison is left out.
- `EditorSession.Editor.EditRemoveAffiliationFromAuthor`: the author argument
  is a live author object in the source. The model identifies it by its index
  in the edited abstract and requires that index to exist.
- Rendering: `ko.applyBindings`, MathJax configuration and typesetting, the
  `$(document).ready` bootstrap and `window.editor`. Knockout's observables
  and recomputation are replaced by plain fields and functions of them.
- The `lib/models` module is not part of this model: `fromObject`,
  `toObject`, `toJSON`, `formatName`, `format` and the field set of each
  record.
  - The descriptive fields are one opaque `name` string per author or
    affiliation.
  - The deep clone of `doStartEdit` is an equal value that is not shared.
  - The blank records are assumed to have empty strings and empty lists.
  - A reference has no position, since the editor never sets one.
- `console.log` messages.
- Strings are sequences of Unicode scalar values. A JavaScript string holding
  an unpaired surrogate has no counterpart, so `ViewState.Utf16Length` counts
  each surrogate pair as one character of two units.
- Null or undefined `text`, `state` and ids are modelled as the empty string,
  which JavaScript treats the same way in every test the editor makes.

## Findings

| source | as written | input that shows it | evidently intended | confidence | as-written member | corrected member |
|---|---|---|---|---|---|---|
| public/javascripts/editor.js:321-331 | After removing affiliation p, each author's links are lowered when `>= removePos`. `removePos` is the index of p in that author's list, or −1 when the author does not hold p. | Links [1, 3], remove affiliation 3: result [0], so the author now points at affiliation 0 instead of 1. Links [0] with two affiliations, remove affiliation 1: result [−1], which is no affiliation. Links [0, 2, 1], remove affiliation 2: result [0, 0], one affiliation linked twice. | Drop p, then lower only the links greater than p: [1] and [0]. This keeps every link on the affiliation it denoted. | not executed | `CrossReference.AsWrittenCounterexamples` (with `DraftEdits.RemoveAffiliationAsWrittenBreaksWellFormed` and `CrossReference.LinksAfterRemovalAsWritten`) | `CrossReference.LinksAfterRemovalKeepTargets` (with `DraftEdits.RemoveAffiliationKeepsWellFormed`) |

The session method `EditorSession.Editor.EditRemoveAffiliation` models the
code as written, because the model describes what the editor does. The
corrected rule is `CrossReference.LinksAfterRemoval`, used by
`DraftEdits.RemoveAffiliation`. The fix is one comparison: `> position`
instead of `>= removePos`.
