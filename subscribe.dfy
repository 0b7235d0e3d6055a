/**
 * The decision of the `POST /api/subscribe` handler once the body has been
 * parsed: normalise the two fields, check the e-mail first and the
 * interest second, and answer with the message of the first failure or
 * accept the lead.
 *
 * `JSON.parse` and `String()` are not modelled: their outcome is a
 * `Payload`. `Malformed` stands for any exception the `try` catches before
 * the checks: a syntax error in `JSON.parse`, or `String()` throwing on the
 * value of either field (an object with no usable `toString`, say).
 * `Parsed` holds, for each field whose value is truthy, that value as
 * `String()` renders it; missing and falsy fields are absent, which
 * `parsed.x || ''` turns into the empty string. A JSON value that is not
 * an object, such as `5`, `"s"` or `true`, has neither field and is
 * `Parsed(map[])`. A JSON `null` parses, but reading a field of it throws,
 * which the handler's `catch` answers like a syntax error.
 */
module Subscribe {
  import opened Wrappers
  import opened Text
  import opened Email
  import opened Interest
  import opened Submissions
  import opened Http

  const InvalidEmailMessage: string := "Please enter a valid email address."
  const InvalidInterestMessage: string := "Please select influencer, need, or curious."
  const InvalidPayloadMessage: string := "Invalid request payload."
  const RecordedMessage: string := "Thanks. Your email has been recorded."

  datatype Payload = Malformed | NullValue | Parsed(fields: map<string, string>)

  /** `String(parsed[name] || '')` */
  function Field(fields: map<string, string>, name: string): string {
    if name in fields then fields[name] else ""
  }

  /** The handler's decision: accept a normalised e-mail and interest key,
      or reject with a message. */
  datatype Verdict = Accepted(email: string, interest: string) | Rejected(message: string)

  /** The body of the `end` handler up to the append, as a decision. */
  function Judge(payload: Payload): Verdict {
    match payload
    case Malformed => Rejected(InvalidPayloadMessage)
    case NullValue => Rejected(InvalidPayloadMessage)
    case Parsed(fields) =>
      Decide(Normalise(Field(fields, "email")), Normalise(Field(fields, "interest")))
  }

  /** The two checks on the normalised fields, e-mail first. */
  function Decide(email: string, interest: string): Verdict {
    if !IsValidEmail(email) then Rejected(InvalidEmailMessage)
    else if !IsValidInterest(interest) then Rejected(InvalidInterestMessage)
    else Accepted(email, interest)
  }

  /** `sendJson` with the status and message that go with a decision. */
  function SubscribeResponse(verdict: Verdict): (r: Response)
    ensures r.contentType == Some(JsonContentType)
    ensures r.status == 200 <==> verdict.Accepted?
    ensures r.status != 200 ==> r.status == 400 && r.body == Text(MessageJson(verdict.message))
    ensures r.status == 200 ==> r.body == Text(MessageJson(RecordedMessage))
  {
    match verdict
    case Accepted(_, _) => JsonMessage(200, RecordedMessage)
    case Rejected(message) => JsonMessage(400, message)
  }

  /** Two rejections for different reasons have different bodies. */
  lemma RejectionsDistinguishable(v1: Verdict, v2: Verdict)
    requires v1.Rejected? && v2.Rejected? && v1.message != v2.message
    ensures SubscribeResponse(v1).body != SubscribeResponse(v2).body
  {
    if SubscribeResponse(v1).body == SubscribeResponse(v2).body {
      MessageJsonInjective(v1.message, v2.message);
    }
  }

    /** The order of the checks, stated against the regular expression and
      the three categories: an e-mail that does not match is rejected
      whatever the interest; a matching e-mail with an unknown interest is
      rejected for the interest; only both together are accepted. */
  lemma DecideOrder(email: string, interest: string)
    ensures Decide(email, interest) == Rejected(InvalidEmailMessage) <==> !MatchesEmailPattern(email)
    ensures Decide(email, interest) == Rejected(InvalidInterestMessage) <==>
      MatchesEmailPattern(email) && forall c: Category :: c.Key() != interest
    ensures Decide(email, interest).Accepted? <==>
      MatchesEmailPattern(email) && exists c: Category :: c.Key() == interest
    ensures Decide(email, interest).Accepted? ==> Decide(email, interest) == Accepted(email, interest)
  {
    EmailShape(email);
    InterestKeysExact(interest);
  }

  /** A body that does not parse, or parses to `null`, is rejected as an
      invalid payload before either field is looked at. */
  lemma UnparsedRejected(payload: Payload)
    requires !payload.Parsed?
    ensures Judge(payload) == Rejected(InvalidPayloadMessage)
  {
  }

  /** A parsed payload is decided on its normalised fields, e-mail first. */
  lemma JudgeOrder(payload: Payload, email: string, interest: string)
    requires payload.Parsed?
    requires email == Normalise(Field(payload.fields, "email"))
    requires interest == Normalise(Field(payload.fields, "interest"))
    ensures Judge(payload) == Rejected(InvalidEmailMessage) <==> !MatchesEmailPattern(email)
    ensures Judge(payload) == Rejected(InvalidInterestMessage) <==>
      MatchesEmailPattern(email) && forall c: Category :: c.Key() != interest
    ensures Judge(payload).Accepted? <==>
      MatchesEmailPattern(email) && exists c: Category :: c.Key() == interest
    ensures Judge(payload).Accepted? ==> Judge(payload) == Accepted(email, interest)
  {
    assert Judge(payload) == Decide(email, interest);
    DecideOrder(email, interest);
  }

  /** An accepted e-mail is in lower case, matches the pattern and holds no
      white space; an accepted interest is one of the three keys. */
  lemma AcceptedShape(payload: Payload, email: string, interest: string)
    requires Judge(payload) == Accepted(email, interest)
    ensures LowerCase(email) && NoSpace(email)
    ensures MatchesEmailPattern(email)
    ensures ' ' !in email && '\n' !in email
    ensures ParseCategory(interest).Some?
  {
    var rawEmail := Field(payload.fields, "email");
    var rawInterest := Field(payload.fields, "interest");
    JudgeOnFields(payload, rawEmail, rawInterest);
    DecideAccepted(Normalise(rawEmail), Normalise(rawInterest), email, interest);
    NormaliseShape(rawEmail);
    EmailShape(email);
    SpaceFree(email);
    InterestKeysExact(interest);
  }

  /** The accepted e-mail is its own normal form: what is recorded would be
      accepted, and recorded, unchanged. */
  lemma AcceptedIsNormal(payload: Payload, email: string, interest: string)
    requires Judge(payload) == Accepted(email, interest)
    ensures Normalise(email) == email && Normalise(interest) == interest
  {
    var rawEmail := Field(payload.fields, "email");
    var rawInterest := Field(payload.fields, "interest");
    JudgeOnFields(payload, rawEmail, rawInterest);
    DecideAccepted(Normalise(rawEmail), Normalise(rawInterest), email, interest);
    NormaliseIdempotent(rawEmail);
    NormaliseIdempotent(rawInterest);
  }

  lemma DecideAccepted(email0: string, interest0: string, email: string, interest: string)
    requires Decide(email0, interest0) == Accepted(email, interest)
    ensures email == email0 && interest == interest0
    ensures IsValidEmail(email) && IsValidInterest(interest)
  {
  }

  lemma SpaceFree(s: string)
    requires NoSpace(s)
    ensures ' ' !in s && '\n' !in s
  {
    assert IsSpace(' ') && IsSpace('\n');
  }

  /** A payload without an e-mail, such as the empty object an empty body
      becomes, is rejected for its e-mail. */
  lemma MissingEmailRejected(fields: map<string, string>)
    requires "email" !in fields
    ensures Judge(Parsed(fields)) == Rejected(InvalidEmailMessage)
  {
    assert Normalise("") == "";
    EmptyIsInvalid();
  }

  /** Submitting the normalised forms of the fields instead of the fields
      themselves changes nothing: `"  Foo@Bar.com "` is judged, and
      recorded, as `"foo@bar.com"`. */
  lemma NormalisedInputSameVerdict(payload: Payload, email: string, interest: string)
    requires payload.Parsed?
    requires email == Normalise(Field(payload.fields, "email"))
    requires interest == Normalise(Field(payload.fields, "interest"))
    ensures Judge(Parsed(payload.fields["email" := email]["interest" := interest])) == Judge(payload)
  {
    var normalised := Parsed(payload.fields["email" := email]["interest" := interest]);
    var rawEmail := Field(payload.fields, "email");
    var rawInterest := Field(payload.fields, "interest");
    UpdatedFields(payload.fields, email, interest);
    JudgeOnFields(normalised, email, interest);
    JudgeOnFields(payload, rawEmail, rawInterest);
    DecideNormalised(rawEmail, rawInterest);
  }

  lemma UpdatedFields(fields: map<string, string>, email: string, interest: string)
    ensures Field(fields["email" := email]["interest" := interest], "email") == email
    ensures Field(fields["email" := email]["interest" := interest], "interest") == interest
  {
  }

  lemma JudgeOnFields(payload: Payload, email: string, interest: string)
    requires payload.Parsed?
    requires Field(payload.fields, "email") == email
    requires Field(payload.fields, "interest") == interest
    ensures Judge(payload) == Decide(Normalise(email), Normalise(interest))
  {
  }

  lemma DecideNormalised(email: string, interest: string)
    ensures Decide(Normalise(Normalise(email)), Normalise(Normalise(interest))) ==
      Decide(Normalise(email), Normalise(interest))
  {
    NormaliseIdempotent(email);
    NormaliseIdempotent(interest);
  }
}
