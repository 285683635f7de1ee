/**
 * The submit handler's input processing: the four form fields are trimmed and
 * then checked in a fixed order, the first failing check ending the submission.
 */
module Validation {
  import opened Wrappers
  import opened Text

  /** One roster row, with the field names the stored objects carry. */
  datatype Student = Student(name: string, sid: string, email: string, contact: string)

  /** Which check rejected the submission (the message the user is alerted with). */
  datatype ValidationError =
    | EmptyField      // "All fields required"
    | InvalidName     // "Name only letters"
    | InvalidId       // "ID only numbers"
    | InvalidContact  // "Contact min 10 digits"

  const NamePattern := Repeat(LettersOrSpace, 1)   // /^[A-Za-z ]+$/
  const IdPattern := Repeat(Digits, 1)             // /^[0-9]+$/
  const ContactPattern := Repeat(Digits, 10)       // /^[0-9]{10,}$/

  /** The record built from the trimmed form values. */
  function TrimmedForm(name: string, sid: string, email: string, contact: string): Student {
    Student(Trim(name), Trim(sid), Trim(email), Trim(contact))
  }

  // Reference definitions of the checks, stated character by character.

  predicate AnyEmpty(d: Student) {
    d.name == [] || d.sid == [] || d.email == [] || d.contact == []
  }

  predicate ValidName(s: string) {
    |s| >= 1 && forall i :: 0 <= i < |s| ==> InClass(LettersOrSpace, s[i])
  }

  predicate ValidId(s: string) {
    |s| >= 1 && forall i :: 0 <= i < |s| ==> InClass(Digits, s[i])
  }

  predicate ValidContact(s: string) {
    |s| >= 10 && forall i :: 0 <= i < |s| ==> InClass(Digits, s[i])
  }

  /** A record every check accepts; the email is only required to be non-empty. */
  predicate IsValidRecord(d: Student) {
    !AnyEmpty(d) && ValidName(d.name) && ValidId(d.sid) && ValidContact(d.contact)
  }

  /**
   * The checks on already trimmed values, in the handler's order. No failure
   * exactly when the record is valid; otherwise the failure is the first check,
   * in the order empty / name / id / contact, that the record fails.
   */
  function FirstFailure(d: Student): (f: Option<ValidationError>)
    ensures f.None? <==> IsValidRecord(d)
    ensures f == Some(EmptyField) <==> AnyEmpty(d)
    ensures f == Some(InvalidName) <==> !AnyEmpty(d) && !ValidName(d.name)
    ensures f == Some(InvalidId) <==> !AnyEmpty(d) && ValidName(d.name) && !ValidId(d.sid)
    ensures f == Some(InvalidContact) <==>
      !AnyEmpty(d) && ValidName(d.name) && ValidId(d.sid) && !ValidContact(d.contact)
  {
    if d.name == [] || d.sid == [] || d.email == [] || d.contact == [] then Some(EmptyField)
    else if !Matches(NamePattern, d.name) then Some(InvalidName)
    else if !Matches(IdPattern, d.sid) then Some(InvalidId)
    else if !Matches(ContactPattern, d.contact) then Some(InvalidContact)
    else None
  }

  /**
   * The submit handler's input step: trims the raw form values and checks them.
   * An acceptance yields the trimmed record, a rejection the first failing check.
   */
  function Validate(name: string, sid: string, email: string, contact: string): (r: Result<Student, ValidationError>)
    ensures var d := TrimmedForm(name, sid, email, contact);
      && (r.Ok? <==> IsValidRecord(d))
      && (r.Ok? ==> r.value == d)
      && (r.Err? ==> FirstFailure(d) == Some(r.error))
  {
    var d := TrimmedForm(name, sid, email, contact);
    match FirstFailure(d)
    case Some(e) => Err(e)
    case None => Ok(d)
  }

  /**
   * An accepted record holds exactly the trimmed inputs: no field starts or ends
   * with whitespace, so in particular the name never starts or ends with a space.
   */
  lemma AcceptedRecordIsTrimmed(name: string, sid: string, email: string, contact: string)
    requires Validate(name, sid, email, contact).Ok?
    ensures var d := Validate(name, sid, email, contact).value;
      && d == Student(Trim(name), Trim(sid), Trim(email), Trim(contact))
      && NoOuterWhitespace(d.name) && NoOuterWhitespace(d.sid)
      && NoOuterWhitespace(d.email) && NoOuterWhitespace(d.contact)
      && d.name[0] != ' ' && d.name[|d.name| - 1] != ' '
  {
  }

  /**
   * Any whitespace typed before or after each field of an already valid, trimmed
   * record does not change the outcome: the same record is accepted.
   */
  lemma {:induction false} SurroundingWhitespaceIgnored(
    d: Student, p1: string, q1: string, p2: string, q2: string,
    p3: string, q3: string, p4: string, q4: string)
    requires IsValidRecord(d)
    requires NoOuterWhitespace(d.name) && NoOuterWhitespace(d.sid)
    requires NoOuterWhitespace(d.email) && NoOuterWhitespace(d.contact)
    requires AllWhitespace(p1) && AllWhitespace(q1) && AllWhitespace(p2) && AllWhitespace(q2)
    requires AllWhitespace(p3) && AllWhitespace(q3) && AllWhitespace(p4) && AllWhitespace(q4)
    ensures Validate(p1 + d.name + q1, p2 + d.sid + q2, p3 + d.email + q3, p4 + d.contact + q4) == Ok(d)
  {
    TrimCharacterized(p1, d.name, q1);
    TrimCharacterized(p2, d.sid, q2);
    TrimCharacterized(p3, d.email, q3);
    TrimCharacterized(p4, d.contact, q4);
  }

  /** Re-validating an accepted record's own fields accepts the same record. */
  lemma {:induction false} AcceptedRecordRevalidates(name: string, sid: string, email: string, contact: string)
    requires Validate(name, sid, email, contact).Ok?
    ensures var d := Validate(name, sid, email, contact).value;
      Validate(d.name, d.sid, d.email, d.contact) == Ok(d)
  {
    TrimIdempotent(name);
    TrimIdempotent(sid);
    TrimIdempotent(email);
    TrimIdempotent(contact);
  }

  /**
   * A digit anywhere in the typed name, with the other fields filled in, is
   * reported as an invalid name: trimming cannot remove it, and the empty-field
   * check passes.
   */
  lemma DigitInNameRejected(name: string, sid: string, email: string, contact: string, k: nat)
    requires Trim(sid) != [] && Trim(email) != [] && Trim(contact) != []
    requires k < |name| && InClass(Digits, name[k])
    ensures Validate(name, sid, email, contact) == Err(InvalidName)
  {
    var t := Trim(name);
    TrimIsSlice(name);
    assert !IsWhitespace(name[k]);
    assert Lead(name) <= k < Lead(name) + |t|;
    assert t[k - Lead(name)] == name[k];
  }

  /**
   * Once name and id are acceptable and an email is given, a contact with fewer
   * than ten characters left after trimming is reported as an invalid contact.
   */
  lemma ShortContactRejected(name: string, sid: string, email: string, contact: string)
    requires ValidName(Trim(name)) && ValidId(Trim(sid)) && Trim(email) != []
    requires Trim(contact) != [] && |Trim(contact)| < 10
    ensures Validate(name, sid, email, contact) == Err(InvalidContact)
  {
  }
}
