/** The add-word form (`src/components/WordForm.tsx`): blank input is
    ignored, the fields are trimmed into a new entry, and the fields are
    cleared only when the store accepts it. The entry's id and timestamp
    come from the clock in the component and are parameters here. */
module WordForm {
  import opened Common
  import opened Text
  import opened WordService

  /** The status line under the form. */
  datatype Notice = Notice(text: string, isError: bool)

  /** The form's input fields and status line. */
  datatype Form = Form(term: string, definition: string, message: Option<Notice>)

  /** Either field is empty once trimmed. */
  predicate Blank(form: Form) {
    Trim(form.term) == "" || Trim(form.definition) == ""
  }

  /** The entry a submission builds: trimmed term and definition. */
  function NewWord(form: Form, id: string, now: int): Word {
    Word(id, Trim(form.term), Trim(form.definition), now)
  }

  /** `handleSubmit` together with the save it schedules: returns the form
      and the stored list afterwards. */
  function Submit(form: Form, words: seq<Word>, id: string, now: int): (r: (Form, seq<Word>))
    ensures Blank(form) ==> r == (form, words)
    ensures r.1 == words || r.1 == words + [NewWord(form, id, now)]
    ensures r.1 != words <==> !Blank(form) && !HasTerm(words, Trim(form.term))
    ensures !Blank(form) ==>
      (r.0.term == "" && r.0.definition == "" <==> r.1 != words)
    ensures !Blank(form) && r.1 == words ==>
      r.0.term == form.term && r.0.definition == form.definition &&
      r.0.message == Some(Notice(DuplicateMessage(Trim(form.term)), true))
    ensures r.1 != words ==> r.0.message == Some(Notice(SavedMessage, false))
  {
    if Blank(form) then (form, words)
    else
      var saved := SaveWord(words, NewWord(form, id, now));
      if saved.1.success then
        (Form("", "", Some(Notice(saved.1.message, false))), saved.0)
      else
        (form.(message := Some(Notice(saved.1.message, true))), saved.0)
  }

  /** An entry added through the form has a non-empty term and definition
      with no surrounding whitespace, and the list keeps unique terms. */
  lemma SubmittedWordIsClean(form: Form, words: seq<Word>, id: string, now: int)
    requires Submit(form, words, id, now).1 != words
    ensures var w := NewWord(form, id, now);
            && w.term != "" && w.definition != ""
            && Trim(w.term) == w.term && Trim(w.definition) == w.definition
            && (UniqueTerms(words) ==> UniqueTerms(Submit(form, words, id, now).1))
  {
    TrimIdempotent(form.term);
    TrimIdempotent(form.definition);
    if UniqueTerms(words) {
      SaveWordKeepsTermsUnique(words, NewWord(form, id, now));
    }
  }
}
