/**
 * EditorViewModel: the edit session over a saved abstract (`abstr`), the
 * abstract bound to the edit forms (`edited`) and the flag saying whether
 * the abstract exists on the server (`saved`).
 *
 * The session is a small state machine. Where the source stores the SAME
 * object in both fields (a freshly created or freshly loaded abstract, and
 * the local promotion in doEndEdit), `aliased` is set: edits of the one
 * are then edits of the other. doStartEdit's deep copy and a save's server
 * copy end the sharing.
 *
 * Calls to the record store are synchronous in the source; here the store's
 * answer is a parameter (`Reply`) and each method returns the request it
 * sent. A dereference of an absent abstract, which throws a TypeError in
 * the source, and the source's own `throw`s are returned as `Thrown`.
 */
module EditorSession {
  import opened JsArrays
  import opened PositionalList
  import opened Entities
  import opened CrossReference
  import opened DraftEdits

  datatype Error =
    | NullAbstract        // the abstract or the edited abstract is null
    | MissingIdentifiers  // "Conference id or abstract id must be defined"
    | InvalidSelection    // "Unable to add author to affiliation"

  /** The store request a save sends: PUT to the abstract's uuid, or POST to the conference. */
  datatype Request =
    | Update(uuid: string, body: Abstract)
    | Create(conference: string, body: Abstract)

  /** The store's answer: the record it now holds, or an error. */
  datatype Reply = Delivered(record: Abstract) | Failed

  datatype Outcome =
    | Done                                // completed without a store call
    | Sent(request: Request, stored: bool) // a store call was made; `stored` when it succeeded
    | Thrown(error: Error)

  /** JavaScript truthiness of an optional identifier: present and not the empty string. */
  function Truthy(id: Option<string>): (r: bool)
    ensures r ==> id.Some? && |id.value| > 0
    ensures id == None || id == Some("") ==> !r
  {
    id.Some? && id.value != ""
  }

  /** The abstract doSaveAbstract sends: its argument when it is an abstract, the saved one otherwise. */
  function SaveBody(arg: Option<Abstract>, abstr: Option<Abstract>): (r: Option<Abstract>)
    ensures r == arg || r == abstr
    ensures r.None? <==> arg.None? && abstr.None?
    ensures arg.Some? ==> r == arg
  {
    if arg.Some? then arg else abstr
  }

  class Editor {
    const confId: Option<string>
    const abstrId: Option<string>
    var abstr: Option<Abstract>
    var edited: Option<Abstract>
    var saved: bool
    var aliased: bool

    /** Shared means equal: both fields name one object. */
    ghost predicate Valid()
      reads this
    {
      aliased ==> abstr == edited
    }

    /** The edited abstract is now `d`, and so is the saved one when the two are shared. */
    ghost predicate DraftIs(d: Abstract, before: Option<Abstract>)
      reads this
    {
      edited == Some(d) && abstr == (if aliased then Some(d) else before)
    }

    /** `EditorViewModel(confId, abstrId)`: nothing loaded yet, nothing saved. */
    constructor (confId: Option<string>, abstrId: Option<string>)
      ensures Valid() && this.confId == confId && this.abstrId == abstrId
      ensures abstr == None && edited == None && !saved && !aliased
    {
      this.confId := confId;
      this.abstrId := abstrId;
      abstr := None;
      edited := None;
      saved := false;
      aliased := false;
    }

    /**
     * `init`: with an abstract id, the fetched abstract becomes both the
     * saved and the edited abstract and the session counts as saved even if
     * the fetch failed; without one, a blank abstract is created, shared,
     * and not saved. The conference fetch is not part of this model.
     */
    method Init(fetched: Reply)
      requires Valid()
      modifies this
      ensures Valid()
      ensures Truthy(abstrId) && fetched.Delivered? ==>
        abstr == edited == Some(fetched.record) && aliased && saved
      ensures Truthy(abstrId) && fetched.Failed? ==>
        abstr == old(abstr) && edited == old(edited) && aliased == old(aliased) && saved
      ensures !Truthy(abstrId) ==>
        abstr == edited == Some(NewAbstract) && aliased && saved == old(saved)
    {
      if Truthy(abstrId) {
        if fetched.Delivered? {
          abstr := Some(fetched.record);
          edited := abstr;
          aliased := true;
        }
        saved := true;
      } else {
        abstr := Some(NewAbstract);
        edited := abstr;
        aliased := true;
      }
    }

    /** Replace the edited abstract, and the saved one with it when they are shared. */
    method SetDraft(d: Abstract)
      requires Valid()
      modifies this
      ensures Valid() && DraftIs(d, old(abstr))
      ensures saved == old(saved) && aliased == old(aliased)
    {
      edited := Some(d);
      if aliased {
        abstr := edited;
      }
    }

    /**
     * `doSaveAbstract(arg)`: PUT to the saved abstract's uuid when saved,
     * else POST to the conference when there is a conference id, else
     * throw. On success the server's copy becomes the saved abstract (no
     * longer shared) and the session is saved; on failure nothing changes.
     */
    method SaveAbstract(arg: Option<Abstract>, reply: Reply) returns (r: Outcome)
      requires Valid()
      modifies this
      ensures Valid() && edited == old(edited)
      ensures old(saved) && old(abstr).None? ==> r == Thrown(NullAbstract)
      ensures old(saved) && old(abstr).Some? ==>
        r.Sent? && r.request == Update(old(abstr).value.uuid, SaveBody(arg, old(abstr)).value)
      ensures !old(saved) && Truthy(confId) && SaveBody(arg, old(abstr)).None? ==> r == Thrown(NullAbstract)
      ensures !old(saved) && Truthy(confId) && SaveBody(arg, old(abstr)).Some? ==>
        r.Sent? && r.request == Create(confId.value, SaveBody(arg, old(abstr)).value)
      ensures !old(saved) && !Truthy(confId) ==> r == Thrown(MissingIdentifiers)
      ensures r.Thrown? ==> unchanged(this)
      ensures r.Sent? ==> r.stored == reply.Delivered?
      ensures r.Sent? && reply.Delivered? ==> abstr == Some(reply.record) && saved && !aliased
      ensures !(r.Sent? && reply.Delivered?) ==>
        abstr == old(abstr) && saved == old(saved) && aliased == old(aliased)
    {
      var body := SaveBody(arg, abstr);
      var request;
      if saved {
        if abstr.None? {
          return Thrown(NullAbstract);
        }
        request := Update(abstr.value.uuid, body.value);
      } else if Truthy(confId) {
        if body.None? {
          return Thrown(NullAbstract);
        }
        request := Create(confId.value, body.value);
      } else {
        return Thrown(MissingIdentifiers);
      }
      if reply.Delivered? {
        abstr := Some(reply.record);
        saved := true;
        aliased := false;
      }
      r := Sent(request, reply.Delivered?);
    }

    /** Write `state` into the saved abstract (and the edited one when shared), then save it. */
    method SetStateAndSave(state: string, reply: Reply) returns (r: Outcome)
      requires Valid()
      modifies this
      ensures Valid()
      ensures old(abstr).None? ==> r == Thrown(NullAbstract) && unchanged(this)
      ensures old(abstr).Some? ==>
        var written := old(abstr).value.(state := state);
        && edited == (if old(aliased) then Some(written) else old(edited))
        && (old(saved) ==> r == Sent(Update(written.uuid, written), reply.Delivered?))
        && (!old(saved) && Truthy(confId) ==> r == Sent(Create(confId.value, written), reply.Delivered?))
        && (!old(saved) && !Truthy(confId) ==> r == Thrown(MissingIdentifiers))
        && (r.Sent? && reply.Delivered? ==> abstr == Some(reply.record) && saved && !aliased)
        && (!(r.Sent? && reply.Delivered?) ==>
              abstr == Some(written) && saved == old(saved) && aliased == old(aliased))
    {
      if abstr.None? {
        return Thrown(NullAbstract);
      }
      abstr := Some(abstr.value.(state := state));
      if aliased {
        edited := abstr;
      }
      r := SaveAbstract(abstr, reply);
    }

    /**
     * `doSubmitAbstract`: state "Submitted" is written before the save, so
     * it stays in the local abstract when the save fails. No check of the
     * state it comes from.
     */
    method SubmitAbstract(reply: Reply) returns (r: Outcome)
      requires Valid()
      modifies this
      ensures Valid()
      ensures old(abstr).None? ==> r == Thrown(NullAbstract) && unchanged(this)
      ensures old(abstr).Some? ==>
        var written := old(abstr).value.(state := "Submitted");
        && edited == (if old(aliased) then Some(written) else old(edited))
        && (old(saved) ==> r == Sent(Update(written.uuid, written), reply.Delivered?))
        && (!old(saved) && Truthy(confId) ==> r == Sent(Create(confId.value, written), reply.Delivered?))
        && (!old(saved) && !Truthy(confId) ==> r == Thrown(MissingIdentifiers))
        && (r.Sent? && reply.Delivered? ==> abstr == Some(reply.record) && saved && !aliased)
        && (!(r.Sent? && reply.Delivered?) ==>
              abstr == Some(written) && saved == old(saved) && aliased == old(aliased))
    {
      r := SetStateAndSave("Submitted", reply);
    }

    /** `doWithdrawAbstract`: as SubmitAbstract, with state "Withdrawn". */
    method WithdrawAbstract(reply: Reply) returns (r: Outcome)
      requires Valid()
      modifies this
      ensures Valid()
      ensures old(abstr).None? ==> r == Thrown(NullAbstract) && unchanged(this)
      ensures old(abstr).Some? ==>
        var written := old(abstr).value.(state := "Withdrawn");
        && edited == (if old(aliased) then Some(written) else old(edited))
        && (old(saved) ==> r == Sent(Update(written.uuid, written), reply.Delivered?))
        && (!old(saved) && Truthy(confId) ==> r == Sent(Create(confId.value, written), reply.Delivered?))
        && (!old(saved) && !Truthy(confId) ==> r == Thrown(MissingIdentifiers))
        && (r.Sent? && reply.Delivered? ==> abstr == Some(reply.record) && saved && !aliased)
        && (!(r.Sent? && reply.Delivered?) ==>
              abstr == Some(written) && saved == old(saved) && aliased == old(aliased))
    {
      r := SetStateAndSave("Withdrawn", reply);
    }

    /** `doStartEdit`: the edited abstract becomes an equal, independent copy of the saved one. */
    method StartEdit() returns (r: Outcome)
      requires Valid()
      modifies this
      ensures Valid() && abstr == old(abstr) && saved == old(saved)
      ensures old(abstr).None? ==> r == Thrown(NullAbstract) && unchanged(this)
      ensures old(abstr).Some? ==> r == Done && edited == old(abstr) && !aliased
    {
      if abstr.None? {
        return Thrown(NullAbstract);
      }
      edited := abstr;
      aliased := false;
      r := Done;
    }

    /**
     * `doEndEdit`: a saved session saves the edited abstract (the saved one
     * when there is none); an unsaved one makes the edited abstract the
     * saved one, shared, without a store call.
     */
    method EndEdit(reply: Reply) returns (r: Outcome)
      requires Valid()
      modifies this
      ensures Valid() && edited == old(edited)
      ensures !old(saved) ==> r == Done && abstr == old(edited) && aliased && !saved
      ensures old(saved) && old(abstr).None? ==> r == Thrown(NullAbstract) && unchanged(this)
      ensures old(saved) && old(abstr).Some? ==>
        && r == Sent(Update(old(abstr).value.uuid, SaveBody(old(edited), old(abstr)).value), reply.Delivered?)
        && (reply.Delivered? ==> abstr == Some(reply.record) && saved && !aliased)
        && (reply.Failed? ==> abstr == old(abstr) && saved && aliased == old(aliased))
    {
      if saved {
        r := SaveAbstract(edited, reply);
      } else {
        abstr := edited;
        aliased := true;
        r := Done;
      }
    }

    /** `getEditorAuthorsForAffiliation`: the edited abstract's authors linked to the affiliation, in order. */
    method GetEditorAuthorsForAffiliation(affiliation: Affiliation) returns (r: Option<seq<Author>>)
      ensures edited.None? ==> r.None?
      ensures edited.Some? ==> r == Some(AuthorsForAffiliation(edited.value.authors, affiliation.position))
    {
      if edited.None? {
        return None;
      }
      var authors := edited.value.authors;
      var found: seq<Author> := [];
      var i := 0;
      while i < |authors|
        invariant 0 <= i <= |authors|
        invariant found == AuthorsForAffiliation(authors[..i], affiliation.position)
      {
        assert authors[..i + 1][..i] == authors[..i];
        if IndexOf(authors[i].data.affiliations, affiliation.position) >= 0 {
          found := found + [authors[i]];
        }
        i := i + 1;
      }
      assert authors[..i] == authors;
      r := Some(found);
    }

    /** `doEditAddAuthor`. */
    method EditAddAuthor() returns (r: Outcome)
      requires Valid()
      modifies this
      ensures Valid() && saved == old(saved) && aliased == old(aliased)
      ensures old(edited).None? ==> r == Thrown(NullAbstract) && unchanged(this)
      ensures old(edited).Some? ==> r == Done && DraftIs(AddAuthor(old(edited).value), old(abstr))
    {
      if edited.None? {
        return Thrown(NullAbstract);
      }
      var d := edited.value;
      SetDraft(d.(authors := d.authors + [Positioned(|d.authors|, NewAuthor)]));
      r := Done;
    }

    /** `doEditRemoveAuthor(author)`: splice at the author's position, then renumber. */
    method EditRemoveAuthor(author: Author) returns (r: Outcome)
      requires Valid()
      modifies this
      ensures Valid() && saved == old(saved) && aliased == old(aliased)
      ensures old(edited).None? ==> r == Thrown(NullAbstract) && unchanged(this)
      ensures old(edited).Some? ==>
        r == Done && DraftIs(RemoveAuthor(old(edited).value, author.position), old(abstr))
    {
      if edited.None? {
        return Thrown(NullAbstract);
      }
      var d := edited.value;
      var authors := Renumber(Splice(d.authors, author.position));
      SetDraft(d.(authors := authors));
      r := Done;
    }

    /** `doEditAddAffiliation`. */
    method EditAddAffiliation() returns (r: Outcome)
      requires Valid()
      modifies this
      ensures Valid() && saved == old(saved) && aliased == old(aliased)
      ensures old(edited).None? ==> r == Thrown(NullAbstract) && unchanged(this)
      ensures old(edited).Some? ==> r == Done && DraftIs(AddAffiliation(old(edited).value), old(abstr))
    {
      if edited.None? {
        return Thrown(NullAbstract);
      }
      var d := edited.value;
      SetDraft(d.(affiliations := d.affiliations + [Positioned(|d.affiliations|, NewAffiliation)]));
      r := Done;
    }

    /**
     * `doEditRemoveAffiliation(affiliation)`, as written: splice and
     * renumber the affiliations, then renumber each author's links against
     * `removePos` (see CrossReference.LinksAfterRemovalAsWritten).
     */
    method EditRemoveAffiliation(affiliation: Affiliation) returns (r: Outcome)
      requires Valid()
      modifies this
      ensures Valid() && saved == old(saved) && aliased == old(aliased)
      ensures old(edited).None? ==> r == Thrown(NullAbstract) && unchanged(this)
      ensures old(edited).Some? ==>
        r == Done && DraftIs(RemoveAffiliationAsWritten(old(edited).value, affiliation.position), old(abstr))
    {
      if edited.None? {
        return Thrown(NullAbstract);
      }
      var d := edited.value;
      var affiliations := Renumber(Splice(d.affiliations, affiliation.position));
      var authors := RelinkAuthors(d.authors, affiliation.position);
      SetDraft(d.(affiliations := affiliations, authors := authors));
      r := Done;
    }

    /**
     * `doEditAddAuthorToAffiliation(affiliation)`, with the author index the
     * page's select element holds as `selected`: out of range throws;
     * otherwise the affiliation's position is added to that author's links
     * unless already there, and the author is then listed for it.
     */
    method EditAddAuthorToAffiliation(affiliation: Affiliation, selected: int) returns (r: Outcome)
      requires Valid()
      modifies this
      ensures Valid() && saved == old(saved) && aliased == old(aliased)
      ensures old(edited).None? ==> r == Thrown(NullAbstract) && unchanged(this)
      ensures old(edited).Some? && !(0 <= selected < |old(edited).value.authors|) ==>
        r == Thrown(InvalidSelection) && unchanged(this)
      ensures old(edited).Some? && 0 <= selected < |old(edited).value.authors| ==>
        && r == Done
        && DraftIs(LinkAuthor(old(edited).value, selected, affiliation.position), old(abstr))
        && edited.value.authors[selected] in AuthorsForAffiliation(edited.value.authors, affiliation.position)
    {
      if edited.None? {
        return Thrown(NullAbstract);
      }
      var d := edited.value;
      if !(0 <= selected < |d.authors|) {
        return Thrown(InvalidSelection);
      }
      var links := d.authors[selected].data.affiliations;
      if IndexOf(links, affiliation.position) < 0 {
        links := links + [affiliation.position];
      }
      SetDraft(d.(authors := WithLinks(d.authors, selected, links)));
      LinkedAuthorIsListed(d, selected, affiliation.position);
      r := Done;
    }

    /**
     * `doEditRemoveAffiliationFromAuthor(affiliation, author)`, the author
     * being the edited abstract's author at index `author`: every
     * occurrence of the affiliation's position leaves its links.
     */
    method EditRemoveAffiliationFromAuthor(affiliation: Affiliation, author: int)
      requires Valid() && edited.Some? && 0 <= author < |edited.value.authors|
      modifies this
      ensures Valid() && saved == old(saved) && aliased == old(aliased)
      ensures DraftIs(UnlinkAuthor(old(edited).value, author, affiliation.position), old(abstr))
    {
      var d := edited.value;
      var links := StripAffiliation(d.authors[author].data.affiliations, affiliation.position);
      SetDraft(d.(authors := WithLinks(d.authors, author, links)));
    }

    /** `doEditAddReference`. */
    method EditAddReference() returns (r: Outcome)
      requires Valid()
      modifies this
      ensures Valid() && saved == old(saved) && aliased == old(aliased)
      ensures old(edited).None? ==> r == Thrown(NullAbstract) && unchanged(this)
      ensures old(edited).Some? ==> r == Done && DraftIs(AddReference(old(edited).value), old(abstr))
    {
      if edited.None? {
        return Thrown(NullAbstract);
      }
      var d := edited.value;
      SetDraft(d.(references := d.references + [NewReference]));
      r := Done;
    }

    /** `doEditRemoveReference(index)`: `splice(index, 1)` on the references. */
    method EditRemoveReference(index: int) returns (r: Outcome)
      requires Valid()
      modifies this
      ensures Valid() && saved == old(saved) && aliased == old(aliased)
      ensures old(edited).None? ==> r == Thrown(NullAbstract) && unchanged(this)
      ensures old(edited).Some? ==> r == Done && DraftIs(RemoveReference(old(edited).value, index), old(abstr))
    {
      if edited.None? {
        return Thrown(NullAbstract);
      }
      var d := edited.value;
      SetDraft(d.(references := Splice(d.references, index)));
      r := Done;
    }
  }
}
