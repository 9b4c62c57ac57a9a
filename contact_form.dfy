/**
  The contact form's submit handler: a presence check on the required fields,
  then the e-mail shape check, then a read-append-write of the whole
  submission log kept in the browser's storage, then a reset of the form.
  The alerts become the `Outcome` the handler returns.
 */
module ContactForm {

  import opened Wrappers
  import opened Email

  /** The values of the four form controls, read verbatim (no trimming). */
  datatype Fields = Fields(name: string, email: string, phone: string, message: string)

  /** The form after a reset: every control empty. */
  const Cleared := Fields("", "", "", "")

  /** One stored submission: the form fields plus the submission time and id. */
  datatype Entry = Entry(
    name: string, email: string, phone: string, message: string,
    timestamp: string, id: int)

  /** What validation decides, in the order the handler checks. */
  datatype Verdict = MissingField | BadEmail | Accepted

  /**
    The storage slot holding the log. `Absent` covers a missing key and an empty
    stored string (both read as `[]`); `Unreadable` is stored text that does not
    decode to an array, on which the read throws.
   */
  datatype Slot = Absent | Holds(entries: seq<Entry>) | Unreadable

  /** What the user is shown (or, for a storage error, what is thrown). */
  datatype Outcome = MissingFieldNotice | BadEmailNotice | StorageError | Saved(count: nat)

  /**
    Validation: the presence check on name, e-mail and message comes first,
    the phone is optional, and only then is the e-mail shape checked.
   */
  function Validate(f: Fields): (v: Verdict)
    ensures v == MissingField <==> f.name == [] || f.email == [] || f.message == []
    ensures v == BadEmail <==> f.name != [] && f.email != [] && f.message != [] && !EmailShape(f.email)
    ensures v == Accepted <==> f.name != [] && f.message != [] && EmailShape(f.email)
  {
    if f.name == [] || f.email == [] || f.message == [] then MissingField
    else if !IsValidEmail(f.email) then BadEmail
    else Accepted
  }

  /** The stored entry: the fields spread verbatim, then `timestamp` and `id`. */
  function NewEntry(f: Fields, timestamp: string, id: int): (e: Entry)
    ensures Fields(e.name, e.email, e.phone, e.message) == f
    ensures e.timestamp == timestamp && e.id == id
  {
    Entry(f.name, f.email, f.phone, f.message, timestamp, id)
  }

  /** The log as the read sees it, or `None` when reading it throws. */
  function ReadLog(slot: Slot): (r: Option<seq<Entry>>)
    ensures r.None? <==> slot.Unreadable?
    ensures slot.Holds? ==> r == Some(slot.entries)
    ensures slot.Absent? ==> r == Some([])
  {
    match slot
    case Absent => Some([])
    case Holds(entries) => Some(entries)
    case Unreadable => None
  }

  /**
    Read the whole log, push one entry and write the whole log back; `None`
    when the read throws, in which case nothing is written.
   */
  function Append(slot: Slot, e: Entry): (r: Option<Slot>)
    ensures r.None? <==> slot.Unreadable?
    ensures r.Some? ==> var before := ReadLog(slot).value;
      && r.value.Holds?
      && |r.value.entries| == |before| + 1
      && r.value.entries[..|before|] == before
      && r.value.entries[|before|] == e
  {
    match ReadLog(slot)
    case None => None
    case Some(log) => Some(Holds(log + [e]))
  }

  /** The submission handler over the form's controls and the storage slot. */
  class ContactFormHandler {
    var fields: Fields
    var storage: Slot

    constructor (storage: Slot)
      ensures fields == Cleared && this.storage == storage
    {
      fields := Cleared;
      this.storage := storage;
    }

    /**
      One submit event. `timestamp` and `id` stand for the locale-formatted
      clock reading and the millisecond clock value taken at submission.
     */
    method Submit(timestamp: string, id: int) returns (outcome: Outcome)
      modifies this
      ensures Validate(old(fields)) == MissingField ==>
        outcome == MissingFieldNotice && fields == old(fields) && storage == old(storage)
      ensures Validate(old(fields)) == BadEmail ==>
        outcome == BadEmailNotice && fields == old(fields) && storage == old(storage)
      ensures Validate(old(fields)) == Accepted && old(storage).Unreadable? ==>
        outcome == StorageError && fields == old(fields) && storage == old(storage)
      ensures Validate(old(fields)) == Accepted && !old(storage).Unreadable? ==>
        var before := ReadLog(old(storage)).value;
        && storage == Holds(before + [NewEntry(old(fields), timestamp, id)])
        && outcome == Saved(|before| + 1)
        && fields == Cleared
    {
      var verdict := Validate(fields);
      if verdict == MissingField {
        return MissingFieldNotice;
      }
      if verdict == BadEmail {
        return BadEmailNotice;
      }
      match Append(storage, NewEntry(fields, timestamp, id))
      case None =>
        outcome := StorageError;
      case Some(written) =>
        storage := written;
        outcome := Saved(|written.entries|);
        fields := Cleared;
    }
  }

  /** An address of the expected form passes the e-mail check. */
  lemma GoodAddressAccepted()
    ensures IsValidEmail("a@b.com")
  {
    var s := "a@b.com";
    assert Run(InTld, s[6..]) == Some(InTld);
    assert Run(InTld, s[5..]) == Some(InTld);
    assert Run(AfterDot, s[4..]) == Some(InTld);
    assert Run(InDomain, s[3..]) == Some(InTld);
    assert Run(DomainStart, s[2..]) == Some(InTld);
    assert Run(InLocal, s[1..]) == Some(InTld);
  }

  /** A string without `@` fails the e-mail check. */
  lemma NoAtRejected(s: string)
    requires forall t :: 0 <= t < |s| ==> s[t] != '@'
    ensures !IsValidEmail(s)
  {
  }

  /** The example submissions: a missing name, a malformed address, a good one. */
  lemma ValidationExamples()
    ensures Validate(Fields("", "a@b.com", "", "hi")) == MissingField
    ensures Validate(Fields("A", "not-an-email", "", "hi")) == BadEmail
    ensures Validate(Fields("A", "a@b.com", "", "hi")) == Accepted
  {
    GoodAddressAccepted();
    NoAtRejected("not-an-email");
  }
}
