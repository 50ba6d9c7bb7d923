/**
 * The `validateContactForm` middleware: five checks in a fixed order, the
 * first that fails decides the one rejection message; when all pass the
 * request goes on to the relay.
 */
module Validation {
  import opened Wrappers
  import opened Text
  import opened Email

  /**
   * The request body's four fields. `None` is a field the body does not carry
   * (undefined) or carries as null.
   */
  datatype Submission = Submission(
    name: Option<string>,
    email: Option<string>,
    subject: Option<string>,
    message: Option<string>)

  datatype Verdict = Accept | Reject(reason: string)

  const AllFieldsRequired: string := "All fields are required"
  const InvalidEmail: string := "Please provide a valid email address"
  const NameTooShort: string := "Name must be at least 2 characters long"
  const SubjectTooShort: string := "Subject must be at least 5 characters long"
  const MessageTooShort: string := "Message must be at least 10 characters long"

  const MinName: nat := 2
  const MinSubject: nat := 5
  const MinMessage: nat := 10

  /** A field passes `!field` as truthy: it is there and is not the empty string. */
  predicate Present(f: Option<string>) {
    f.Some? && f.value != []
  }

  predicate AllPresent(sub: Submission) {
    Present(sub.name) && Present(sub.email) && Present(sub.subject) && Present(sub.message)
  }

  /** `field.trim().length`, counted in UTF-16 code units as JavaScript does. */
  function TrimmedLength(s: string): nat {
    Utf16Length(Trim(s))
  }

  function Validate(sub: Submission): (v: Verdict)
    ensures v == Accept ==> AllPresent(sub)
    ensures v.Reject? ==> v.reason in {AllFieldsRequired, InvalidEmail, NameTooShort, SubjectTooShort, MessageTooShort}
  {
    if !AllPresent(sub) then Reject(AllFieldsRequired)
    else if !Matches(sub.email.value) then Reject(InvalidEmail)
    else if TrimmedLength(sub.name.value) < MinName then Reject(NameTooShort)
    else if TrimmedLength(sub.subject.value) < MinSubject then Reject(SubjectTooShort)
    else if TrimmedLength(sub.message.value) < MinMessage then Reject(MessageTooShort)
    else Accept
  }

  // ---- The five rules, one lemma each, in the order they are checked ----

  /** A missing or empty field is reported as such, whatever the other fields hold. */
  lemma MissingFieldRejected(sub: Submission)
    requires !Present(sub.name) || !Present(sub.email) || !Present(sub.subject) || !Present(sub.message)
    ensures Validate(sub) == Reject(AllFieldsRequired)
  {
  }

  /**
   * With every field present, the e-mail message is given exactly when the
   * address is not of the form a@b.c (a, b, c non-empty, free of white space
   * and '@'), whatever the name, subject and message are.
   */
  lemma EmailRule(sub: Submission)
    requires AllPresent(sub)
    ensures Validate(sub) == Reject(InvalidEmail) <==> !WellFormed(sub.email.value)
  {
    MatchesIff(sub.email.value);
  }

  /** Past the e-mail check, the name message is given exactly when the trimmed name is under 2 long. */
  lemma NameRule(sub: Submission)
    requires AllPresent(sub) && WellFormed(sub.email.value)
    ensures Validate(sub) == Reject(NameTooShort) <==> TrimmedLength(sub.name.value) < 2
  {
    MatchesIff(sub.email.value);
  }

  /** Past the name check, the subject message is given exactly when the trimmed subject is under 5 long. */
  lemma SubjectRule(sub: Submission)
    requires AllPresent(sub) && WellFormed(sub.email.value)
    requires TrimmedLength(sub.name.value) >= 2
    ensures Validate(sub) == Reject(SubjectTooShort) <==> TrimmedLength(sub.subject.value) < 5
  {
    MatchesIff(sub.email.value);
  }

  /** Past the subject check, the message rule is the last one: under 10 is rejected, else accepted. */
  lemma MessageRule(sub: Submission)
    requires AllPresent(sub) && WellFormed(sub.email.value)
    requires TrimmedLength(sub.name.value) >= 2 && TrimmedLength(sub.subject.value) >= 5
    ensures TrimmedLength(sub.message.value) < 10 ==> Validate(sub) == Reject(MessageTooShort)
    ensures TrimmedLength(sub.message.value) >= 10 ==> Validate(sub) == Accept
  {
    MatchesIff(sub.email.value);
  }

  /** A submission goes through exactly when all five checks pass. */
  lemma AcceptIff(sub: Submission)
    ensures Validate(sub) == Accept <==>
      && AllPresent(sub)
      && WellFormed(sub.email.value)
      && TrimmedLength(sub.name.value) >= 2
      && TrimmedLength(sub.subject.value) >= 5
      && TrimmedLength(sub.message.value) >= 10
  {
    if AllPresent(sub) {
      MatchesIff(sub.email.value);
    }
  }

  /** First failure wins: a bad address hides a too-short name, subject or message. */
  lemma EmailCheckedBeforeLengths(sub: Submission)
    requires AllPresent(sub) && !WellFormed(sub.email.value)
    ensures Validate(sub) == Reject(InvalidEmail)
  {
    MatchesIff(sub.email.value);
  }

  /**
   * A name made only of white space is present (a non-empty string is truthy),
   * so it gets past the presence check and is refused by the length rule.
   */
  lemma BlankNameIsTooShort(sub: Submission)
    requires AllPresent(sub) && WellFormed(sub.email.value)
    requires AllWs(sub.name.value)
    ensures Validate(sub) == Reject(NameTooShort)
  {
    MatchesIff(sub.email.value);
  }

  /** The same for a blank subject, once the name passes. */
  lemma BlankSubjectIsTooShort(sub: Submission)
    requires AllPresent(sub) && WellFormed(sub.email.value)
    requires TrimmedLength(sub.name.value) >= 2
    requires AllWs(sub.subject.value)
    ensures Validate(sub) == Reject(SubjectTooShort)
  {
    MatchesIff(sub.email.value);
  }

  /** The same for a blank message, once name and subject pass. */
  lemma BlankMessageIsTooShort(sub: Submission)
    requires AllPresent(sub) && WellFormed(sub.email.value)
    requires TrimmedLength(sub.name.value) >= 2 && TrimmedLength(sub.subject.value) >= 5
    requires AllWs(sub.message.value)
    ensures Validate(sub) == Reject(MessageTooShort)
  {
    MatchesIff(sub.email.value);
  }

  /**
   * The length rules count what `trim` leaves: surrounding white space never
   * helps a field over its threshold. For text in the Basic Multilingual
   * Plane the count is the number of characters left.
   */
  lemma TrimmedLengthBmp(s: string)
    requires InBmp(s)
    ensures TrimmedLength(s) == |Trim(s)|
  {
    var t := TrimStart(s);
    var r := TrimEnd(t);
    assert InBmp(r) by {
      forall k | 0 <= k < |r| ensures r[k] as int <= 0xFFFF {
        assert r[k] == t[k] == s[|s| - |t| + k];
      }
    }
    Utf16LengthBmp(r);
  }
}
