/**
 * The WTForms validators the handlers' forms carry, as predicates on the
 * submitted field values. A handler whose `validate_on_submit()` is false
 * re-renders its page and writes nothing.
 */
module Forms {
  import opened Text
  import opened Schema

  /** `DataRequired()` on a text field: something other than whitespace was submitted. */
  predicate Required(s: string)
  {
    Strip(s) != ""
  }

  /** `Optional()` then `Length(max=n)`: a blank field stops the chain, anything else must fit. */
  predicate OptionalFits(text: string, n: nat)
  {
    Strip(text) == "" || |text| <= n
  }

  /** `RejectForm.rejection_comment` and `ResubmitForm.rectification_comment`: `DataRequired(), Length(min=10, max=1000)`. */
  predicate CommentValid(comment: string)
  {
    Required(comment) && 10 <= |comment| <= 1000
  }

  /** `BDAssignmentForm.note`: `Optional(), Length(max=500)`. */
  predicate NoteValid(note: string)
  {
    OptionalFits(note, 500)
  }

  /** `DataRequired()` and `Length(max=n)` on one text field. */
  predicate RequiredFits(s: string, n: nat)
  {
    Required(s) && |s| <= n
  }

  /**
   * The text fields of `LeadForm` with `DataRequired()` and their `Length(max=…)`:
   * 200 for name, email, company and domain, 50 for the phone, 100 for the
   * place names; the industry is required.
   */
  predicate ContactValid(c: Contact)
  {
    RequiredFits(c.fullName, 200) && RequiredFits(c.email, 200) && RequiredFits(c.phone, 50) &&
    RequiredFits(c.company, 200) && RequiredFits(c.domain, 200) && Required(c.industry) &&
    RequiredFits(c.country, 100) && RequiredFits(c.state, 100) && RequiredFits(c.city, 100)
  }

  /**
   * `LeadForm.services`, a `SelectMultipleField` with `DataRequired()` whose
   * choices are the ids of the `services` table: at least one id, each of them offered.
   */
  predicate ServicesValid(services: seq<nat>, offered: seq<nat>)
  {
    |services| > 0 && forall i :: 0 <= i < |services| ==> services[i] in offered
  }

  predicate LeadFormValid(contact: Contact, services: seq<nat>, offered: seq<nat>)
  {
    ContactValid(contact) && ServicesValid(services, offered)
  }

  /** `LeadEditForm.change_summary`: `DataRequired(), Length(min=10, max=500)`. */
  predicate SummaryValid(summary: string)
  {
    Required(summary) && 10 <= |summary| <= 500
  }

  /** `LeadEditForm`: the fields of `LeadForm` and the change summary. */
  predicate EditFormValid(contact: Contact, services: seq<nat>, offered: seq<nat>, summary: string)
  {
    LeadFormValid(contact, services, offered) && SummaryValid(summary)
  }

  /** A field is `DataRequired` iff it holds a character `str.strip()` does not remove. */
  lemma RequiredMeans(s: string)
    ensures Required(s) <==> exists i :: 0 <= i < |s| && !IsSpace(s[i])
  {
    StripEmptyIffAllSpace(s);
  }

  /** A comment passes iff its length is 10 to 1000 and it is not all whitespace. */
  lemma CommentValidMeans(comment: string)
    ensures CommentValid(comment) <==>
      10 <= |comment| <= 1000 && exists i :: 0 <= i < |comment| && !IsSpace(comment[i])
  {
    RequiredMeans(comment);
  }

  /** A note passes iff it is all whitespace (the empty note included) or at most 500 characters long. */
  lemma NoteValidMeans(note: string)
    ensures NoteValid(note) <==> |note| <= 500 || forall i :: 0 <= i < |note| ==> IsSpace(note[i])
  {
    StripEmptyIffAllSpace(note);
  }

  /** A change summary passes iff it is 10 to 500 characters long and not all whitespace. */
  lemma SummaryValidMeans(summary: string)
    ensures SummaryValid(summary) <==>
      10 <= |summary| <= 500 && exists i :: 0 <= i < |summary| && !IsSpace(summary[i])
  {
    RequiredMeans(summary);
  }

  /**
   * The edit form is refused for a blank required field, for no service or one
   * not offered, and for a summary that is blank or outside 10 to 500 characters.
   */
  lemma EditFormValidMeans(contact: Contact, services: seq<nat>, offered: seq<nat>, summary: string)
    ensures EditFormValid(contact, services, offered, summary) ==>
      |services| > 0 && (forall i :: 0 <= i < |services| ==> services[i] in offered) &&
      10 <= |summary| <= 500 && (exists i :: 0 <= i < |summary| && !IsSpace(summary[i])) &&
      (exists i :: 0 <= i < |contact.fullName| && !IsSpace(contact.fullName[i]))
  {
    SummaryValidMeans(summary);
    RequiredMeans(contact.fullName);
  }
}
