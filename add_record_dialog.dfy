/** The capture form (src/components/records/AddRecordDialog.tsx): three
    fields of form state and the submit handler that turns them into a
    candidate record for the pre-selected type. */
module AddRecordDialog {
  import opened Records

  /** `description || undefined`: the empty description becomes absent. */
  function OptionalText(description: string): (r: Option<string>)
    ensures r == None <==> description == ""
    ensures r.Some? ==> r.value == description
  {
    if description == "" then None else Some(description)
  }

  /** The submit button's `disabled={!title || !date}`, negated. */
  predicate SubmitEnabled(title: string, date: Option<Date>)
  {
    title != "" && date.Some?
  }

  /** The handler's own guard `!title || !date || !selectedType`, negated. */
  predicate Accepts(title: string, date: Option<Date>, selectedType: Option<RecordType>)
  {
    title != "" && date.Some? && selectedType.Some?
  }

  /** The handler accepts exactly when the button is enabled and a type is
      selected: the button itself does not look at the type. */
  lemma AcceptsIsEnabledWithType(title: string, date: Option<Date>, selectedType: Option<RecordType>)
    ensures Accepts(title, date, selectedType) <==> SubmitEnabled(title, date) && selectedType.Some?
  {
  }

  /** So an enabled button can still submit nothing. */
  lemma EnabledButNoType(title: string, d: Date)
    requires title != ""
    ensures SubmitEnabled(title, Some(d)) && !Accepts(title, Some(d), None)
  {
  }

  class Form {
    var title: string
    var date: Option<Date>
    var description: string

    /** `useState("")`, `useState<Date>()`, `useState("")`. */
    constructor ()
      ensures title == "" && date == None && description == ""
    {
      title, date, description := "", None, "";
    }

    /** The title input's `onChange`. */
    method SetTitle(value: string)
      modifies this
      ensures title == value && date == old(date) && description == old(description)
    {
      title := value;
    }

    /** The calendar's `onSelect`; a cleared selection is `None`. */
    method SetDate(value: Option<Date>)
      modifies this
      ensures date == value && title == old(title) && description == old(description)
    {
      date := value;
    }

    /** The description textarea's `onChange`. */
    method SetDescription(value: string)
      modifies this
      ensures description == value && title == old(title) && date == old(date)
    {
      description := value;
    }

    /** `handleSubmit`. Without a title, a date or a selected type nothing
        is emitted and the form is left as it was. Otherwise exactly one
        candidate is emitted, carrying the selected type, the title as
        typed (not trimmed), the chosen date, the description or its
        absence, and empty details, and the fields are cleared. */
    method HandleSubmit(selectedType: Option<RecordType>) returns (emitted: Option<Candidate>)
      modifies this
      ensures emitted.Some? <==> Accepts(old(title), old(date), selectedType)
      ensures emitted == None ==>
                title == old(title) && date == old(date) && description == old(description)
      ensures emitted.Some? ==>
                && emitted.value.recordType == selectedType.value
                && emitted.value.title == old(title)
                && emitted.value.date == old(date).value
                && emitted.value.description == OptionalText(old(description))
                && emitted.value.details == Some(map[])
      ensures emitted.Some? ==> title == "" && date == None && description == ""
    {
      if title == "" || date.None? || selectedType.None? {
        return None;
      }
      emitted := Some(Candidate(selectedType.value, title, date.value, OptionalText(description), Some(map[])));
      title, date, description := "", None, "";
    }
  }

  /** A title of blanks passes the guard and is emitted unchanged: the
      handler does not trim. */
  method BlankTitleIsKept(d: Date, t: RecordType) returns (emitted: Option<Candidate>)
    ensures emitted.Some? && emitted.value.title == " "
  {
    var form := new Form();
    form.SetTitle(" ");
    form.SetDate(Some(d));
    emitted := form.HandleSubmit(Some(t));
  }
}
