/**
 * Sessions driven through the Editor's contracts alone, as the page drives
 * them: what a caller can conclude about the buttons and the edited
 * abstract after each step.
 */
module Scenarios {
  import opened JsArrays
  import opened PositionalList
  import opened Entities
  import opened ViewState
  import opened CrossReference
  import opened DraftEdits
  import opened EditorSession

  /** A page without identifiers: an unsaved blank abstract; ending the edit promotes it locally. */
  method NewSessionPromotesDraft()
  {
    var e := new Editor(None, None);
    e.Init(Failed);
    assert !e.saved && ShowButtonSave(e.abstr, e.saved) && !ShowButtonSubmit(e.abstr, e.saved);
    var r := e.EndEdit(Failed);
    assert r == Done && e.abstr == e.edited && !e.saved;
  }

  /** A loaded abstract in preparation offers save and submit; after a stored submit, withdraw only. */
  method SubmitFromInPreparation(a: Abstract)
    requires a.state == "InPreparation"
  {
    var e := new Editor(None, Some("abstract-1"));
    e.Init(Delivered(a));
    assert ShowButtonSave(e.abstr, e.saved) && ShowButtonSubmit(e.abstr, e.saved);
    assert !ShowButtonWithdraw(e.abstr, e.saved);
    var submitted := a.(state := "Submitted");
    var r := e.SubmitAbstract(Delivered(submitted));
    assert r == Sent(Update(a.uuid, submitted), true);
    assert ShowButtonWithdraw(e.abstr, e.saved) && !ShowButtonSubmit(e.abstr, e.saved);
  }

  /** A submit whose save fails still leaves "Submitted" in the local abstract. */
  method FailedSubmitKeepsState(a: Abstract)
  {
    var e := new Editor(None, Some("abstract-1"));
    e.Init(Delivered(a));
    var r := e.SubmitAbstract(Failed);
    assert r == Sent(Update(a.uuid, a.(state := "Submitted")), false);
    assert e.abstr.value.state == "Submitted";
  }

  /** Author A linked to affiliation 1; removing affiliation 0 leaves A linked to 0. */
  method RemovingFirstAffiliationRenumbersLink()
  {
    var e := new Editor(Some("conference-1"), None);
    e.Init(Failed);
    var r := e.EditAddAuthor();
    r := e.EditAddAffiliation();
    r := e.EditAddAffiliation();
    assert e.edited.value.authors == [Positioned(0, NewAuthor)];
    r := e.EditAddAuthorToAffiliation(Positioned(1, NewAffiliation), 0);
    assert r == Done && e.edited.value.authors[0].data.affiliations == [1];
    var d := e.edited.value;
    assert d.authors == [Positioned(0, AuthorInfo("", [1]))] && |d.affiliations| == 2;
    assert LinksAfterRemovalAsWritten([1], 0) == [0] by {
      assert IndexOf([1], 0) == -1;
    }
    r := e.EditRemoveAffiliation(Positioned(0, NewAffiliation));
    assert e.edited == Some(RemoveAffiliationAsWritten(d, 0));
    assert e.edited.value.authors[0].data.affiliations == [0];
    assert |e.edited.value.affiliations| == 1;
  }
}
