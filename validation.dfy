/**
 * The validator that gates every add or update of a task: three checks in
 * a fixed order, the first failing one deciding the message shown.
 */
module Validation {
  import opened JsStrings
  import opened IsoDates

  datatype ValidationError = NameRequired | DateRequired | DateInPast

  /** The text shown to the user for each failure; never empty. */
  function Message(e: ValidationError): (m: string)
    ensures m != ""
  {
    match e
    case NameRequired => "Task name is required"
    case DateRequired => "Date is required"
    case DateInPast => "Date must be today or in the future"
  }

  /** Each failure has its own text, so the message tells which check
      failed. */
  lemma MessagesDistinct(e1: ValidationError, e2: ValidationError)
    ensures Message(e1) == Message(e2) <==> e1 == e2
  {
    assert Message(NameRequired)[0] == 'T' && Message(DateRequired)[0] == 'D';
    assert Message(DateInPast)[5] == 'm' && Message(DateRequired)[5] == 'i';
  }

  datatype Outcome = Pass | Fail(error: ValidationError)

  /** Validates a task name and the raw date input against `today`, the
      `YYYY-MM-DD` prefix of the current instant in UTC. An empty date input
      is the empty string. */
  function Validate(name: string, date: string, today: string): (r: Outcome)
    ensures r == Pass <==> !Blank(name) && date != "" && !Less(date, today)
    ensures r == Fail(NameRequired) <==> Blank(name)
    ensures r == Fail(DateRequired) <==> !Blank(name) && date == ""
    ensures r == Fail(DateInPast) <==> !Blank(name) && date != "" && Less(date, today)
  {
    if Trim(name) == "" then Fail(NameRequired)
    else if date == "" then Fail(DateRequired)
    else if Less(date, today) then Fail(DateInPast)
    else Pass
  }

  /** For a well-formed date and today, the lexicographic test accepts
      exactly the dates that are today or later on the calendar. */
  lemma ValidateIsChronological(name: string, date: string, today: string)
    requires !Blank(name) && IsIsoDate(date) && IsIsoDate(today)
    ensures Validate(name, date, today) == Pass <==> !Before(date, today)
    ensures Validate(name, date, today) == Fail(DateInPast) <==> Before(date, today)
  {
    IsoLessIsChronological(date, today);
  }

  /** A date equal to today passes the date check. */
  lemma TodayIsAccepted(name: string, today: string)
    requires !Blank(name) && today != ""
    ensures Validate(name, today, today) == Pass
  {
    LessIrreflexive(today);
  }
}
