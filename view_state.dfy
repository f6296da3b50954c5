/**
 * The values the editor derives from its session and the page displays:
 * the character budgets of the edited abstract and which of the save,
 * submit and withdraw buttons are offered for the saved abstract.
 */
module ViewState {
  import opened Entities

  const TextCharacterLimit: int := 2000
  const AckCharacterLimit: int := 200

  /**
   * JavaScript's `length` of a string: the number of UTF-16 code units, so a
   * character outside the Basic Multilingual Plane (above U+FFFF, such as
   * the mathematical alphanumerics) counts twice.
   */
  function Utf16Length(s: string): (n: nat)
    ensures |s| <= n <= 2 * |s|
    ensures (forall i :: 0 <= i < |s| ==> s[i] as int <= 0xFFFF) ==> n == |s|
    ensures s == "" <==> n == 0
    ensures |s| == 1 ==> n == if s[0] as int > 0xFFFF then 2 else 1
  {
    if s == [] then 0
    else (if s[0] as int > 0xFFFF then 2 else 1) + Utf16Length(s[1..])
  }

  /** The length of a concatenation is the sum of the lengths, so every character adds its own units. */
  lemma {:induction false} Utf16LengthConcat(a: string, b: string)
    ensures Utf16Length(a + b) == Utf16Length(a) + Utf16Length(b)
  {
    if a == [] {
      assert a + b == b;
    } else {
      assert (a + b)[1..] == a[1..] + b;
      Utf16LengthConcat(a[1..], b);
    }
  }

  /** editorTextCharactersLeft: the limit, less the length of a non-empty draft text. */
  function TextCharactersLeft(draft: Option<Abstract>): (r: int)
    ensures r <= TextCharacterLimit
    ensures draft.None? ==> r == TextCharacterLimit
    ensures draft.Some? ==> r == TextCharacterLimit - Utf16Length(draft.value.text)
  {
    if draft.Some? && draft.value.text != "" then TextCharacterLimit - Utf16Length(draft.value.text)
    else TextCharacterLimit
  }

  /** editorAckCharactersLeft: the limit, less the length of non-empty draft acknowledgements. */
  function AckCharactersLeft(draft: Option<Abstract>): (r: int)
    ensures r <= AckCharacterLimit
    ensures draft.None? ==> r == AckCharacterLimit
    ensures draft.Some? ==> r == AckCharacterLimit - Utf16Length(draft.value.acknowledgements)
  {
    if draft.Some? && draft.value.acknowledgements != "" then AckCharacterLimit - Utf16Length(draft.value.acknowledgements)
    else AckCharacterLimit
  }

  /**
   * The budget is not clamped: it is negative exactly when the text is over
   * the limit in UTF-16 units. For text within the Basic Multilingual Plane
   * that is its number of characters.
   */
  lemma TextBudget(draft: Option<Abstract>)
    ensures TextCharactersLeft(draft) < 0 <==> draft.Some? && Utf16Length(draft.value.text) > TextCharacterLimit
    ensures draft.Some? && (forall i :: 0 <= i < |draft.value.text| ==> draft.value.text[i] as int <= 0xFFFF) ==>
      TextCharactersLeft(draft) == TextCharacterLimit - |draft.value.text|
    ensures draft.Some? ==>
      TextCharacterLimit - 2 * |draft.value.text| <= TextCharactersLeft(draft) <= TextCharacterLimit - |draft.value.text|
  {
  }

  lemma AckBudget(draft: Option<Abstract>)
    ensures AckCharactersLeft(draft) < 0 <==> draft.Some? && Utf16Length(draft.value.acknowledgements) > AckCharacterLimit
    ensures draft.Some? && (forall i :: 0 <= i < |draft.value.acknowledgements| ==> draft.value.acknowledgements[i] as int <= 0xFFFF) ==>
      AckCharactersLeft(draft) == AckCharacterLimit - |draft.value.acknowledgements|
    ensures draft.Some? ==>
      AckCharacterLimit - 2 * |draft.value.acknowledgements| <= AckCharactersLeft(draft) <= AckCharacterLimit - |draft.value.acknowledgements|
  {
  }

  /**
   * One character outside the Basic Multilingual Plane (U+1D465, the
   * mathematical italic x) takes two units of the budget; one inside it
   * takes one.
   */
  lemma AstralCharacterCountsTwice()
    ensures TextCharactersLeft(Some(NewAbstract.(text := "\U{1D465}"))) == TextCharacterLimit - 2
    ensures TextCharactersLeft(Some(NewAbstract.(text := "x"))) == TextCharacterLimit - 1
  {
    assert Utf16Length("\U{1D465}") == 2 + Utf16Length("");
  }

  /** `!state || state === 'InPreparation'`: unset or still in preparation. */
  predicate Editable(state: string) {
    state == "" || state == "InPreparation"
  }

  /** `['Submitted', 'InReview'].indexOf(state) >= 0`. */
  predicate Withdrawable(state: string) {
    state == "Submitted" || state == "InReview"
  }

  /** showButtonSave: an abstract that is not yet on the server, or one still editable. */
  function ShowButtonSave(abstr: Option<Abstract>, saved: bool): (r: bool)
    ensures r ==> abstr.Some?
    ensures abstr.Some? && !saved ==> r
    ensures saved && abstr.Some? && Withdrawable(abstr.value.state) ==> !r
  {
    abstr.Some? && (!saved || Editable(abstr.value.state))
  }

  /** showButtonSubmit: a saved abstract that is still editable. */
  function ShowButtonSubmit(abstr: Option<Abstract>, saved: bool): (r: bool)
    ensures r ==> abstr.Some? && saved && ShowButtonSave(abstr, saved)
    ensures !saved ==> !r
  {
    abstr.Some? && saved && Editable(abstr.value.state)
  }

  /** showButtonWithdraw: a saved abstract that is submitted or in review. */
  function ShowButtonWithdraw(abstr: Option<Abstract>, saved: bool): (r: bool)
    ensures r ==> abstr.Some? && saved && !ShowButtonSave(abstr, saved) && !ShowButtonSubmit(abstr, saved)
  {
    abstr.Some? && saved && Withdrawable(abstr.value.state)
  }

  lemma NoButtonsWithoutAbstract(saved: bool)
    ensures !ShowButtonSave(None, saved) && !ShowButtonSubmit(None, saved) && !ShowButtonWithdraw(None, saved)
  {
  }

  lemma SubmitImpliesSave(abstr: Option<Abstract>, saved: bool)
    ensures ShowButtonSubmit(abstr, saved) ==> ShowButtonSave(abstr, saved)
  {
  }

  lemma SubmitExcludesWithdraw(abstr: Option<Abstract>, saved: bool)
    ensures !(ShowButtonSubmit(abstr, saved) && ShowButtonWithdraw(abstr, saved))
  {
  }

  /** A never-saved abstract offers save only, whatever its state. */
  lemma UnsavedOffersOnlySave(a: Abstract)
    ensures ShowButtonSave(Some(a), false)
    ensures !ShowButtonSubmit(Some(a), false) && !ShowButtonWithdraw(Some(a), false)
  {
  }

  /**
   * A saved abstract: unset and InPreparation offer save and submit;
   * Submitted and InReview offer withdraw only; Withdrawn and every other
   * state offer nothing.
   */
  lemma SavedButtonsByState(a: Abstract)
    ensures a.state == "" || a.state == "InPreparation" ==>
      ShowButtonSave(Some(a), true) && ShowButtonSubmit(Some(a), true) && !ShowButtonWithdraw(Some(a), true)
    ensures a.state == "Submitted" || a.state == "InReview" ==>
      !ShowButtonSave(Some(a), true) && !ShowButtonSubmit(Some(a), true) && ShowButtonWithdraw(Some(a), true)
    ensures !Editable(a.state) && !Withdrawable(a.state) ==>
      !ShowButtonSave(Some(a), true) && !ShowButtonSubmit(Some(a), true) && !ShowButtonWithdraw(Some(a), true)
  {
  }
}
