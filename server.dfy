/**
 * The request listener: `POST /api/subscribe` reads the body, capped at a
 * million UTF-16 code units, and runs the subscribe handler; any other `GET` is
 * answered from the static files; every other request gets 405.
 *
 * A request is its method, its URL and the chunks its body arrives in. The
 * outside world comes in as parameters: `read` is the file system seen by
 * `fs.readFile`, `parse` is `JSON.parse`, and `now` is the ISO-8601 time
 * stamp `new Date().toISOString()` gives at the moment of appending.
 */
module Server {
  import opened Wrappers
  import opened Text
  import opened Email
  import opened Interest
  import opened Submissions
  import opened Http
  import opened Paths
  import opened Static
  import opened Subscribe

  /** `1e6`: the body length, in UTF-16 code units, beyond which the
      request is destroyed. */
  const MaxBodyLength: nat := 1000000

  const SubscribePath: string := "/api/subscribe"

  /** `req.method`, `req.url` and the body chunks. */
  datatype Request = Request(verb: string, url: string, chunks: seq<string>)

  /** The chunks received so far, glued together. */
  function Concat(chunks: seq<string>): string
    decreases |chunks|
  {
    if chunks == [] then "" else Concat(chunks[..|chunks| - 1]) + chunks[|chunks| - 1]
  }

  /** One more chunk adds its text at the end. */
  lemma ConcatSnoc(chunks: seq<string>, k: nat)
    requires k < |chunks|
    ensures Concat(chunks[..k + 1]) == Concat(chunks[..k]) + chunks[k]
  {
    assert chunks[..k + 1][..k] == chunks[..k];
  }

  /** The body only grows as chunks arrive. */
  lemma {:induction false} ConcatGrows(chunks: seq<string>, k: nat)
    requires k <= |chunks|
    ensures Utf16Length(Concat(chunks[..k])) <= Utf16Length(Concat(chunks))
    decreases |chunks| - k
  {
    if k < |chunks| {
      ConcatSnoc(chunks, k);
      Utf16Append(Concat(chunks[..k]), chunks[k]);
      ConcatGrows(chunks, k + 1);
      if k + 1 == |chunks| {
        assert chunks[..k + 1] == chunks;
      }
    } else {
      assert chunks[..k] == chunks;
    }
  }

  /** The whole body, or nothing when it is over the cap. */
  function BodyWithinCap(chunks: seq<string>): Option<string> {
    var body := Concat(chunks);
    if Utf16Length(body) > MaxBodyLength then None else Some(body)
  }

  /** The `data` handler over all chunks: append each chunk, and stop for
      good as soon as the body is longer than the cap. A body that stays
      within the cap is read whole; one that does not is cut off at the
      first chunk that takes it over. */
  method ReadBody(chunks: seq<string>) returns (body: string, aborted: bool)
    ensures aborted <==> BodyWithinCap(chunks).None?
    ensures !aborted ==> BodyWithinCap(chunks) == Some(body)
    ensures aborted ==> exists k ::
      && 0 < k <= |chunks| && body == Concat(chunks[..k])
      && Utf16Length(body) > MaxBodyLength && Utf16Length(Concat(chunks[..k - 1])) <= MaxBodyLength
  {
    body := "";
    aborted := false;
    var i := 0;
    while i < |chunks| && !aborted
      invariant 0 <= i <= |chunks|
      invariant body == Concat(chunks[..i])
      invariant !aborted ==> Utf16Length(body) <= MaxBodyLength
      invariant aborted ==> 0 < i && Utf16Length(body) > MaxBodyLength && Utf16Length(Concat(chunks[..i - 1])) <= MaxBodyLength
    {
      ConcatSnoc(chunks, i);
      Utf16Append(body, chunks[i]);
      body := body + chunks[i];
      i := i + 1;
      if Utf16Length(body) > MaxBodyLength {
        assert chunks[..i][..i - 1] == chunks[..i - 1];
        aborted := true;
      }
    }
    if aborted {
      ConcatGrows(chunks, i);
    } else {
      assert chunks[..i] == chunks;
    }
  }

  /** What a request leads to: the response, if one is sent, and the lines
      appended to the submissions log. */
  datatype Outcome = Outcome(response: Option<Response>, appended: seq<string>)

  /** The `end` handler once the body has been parsed. */
  function SubscribeOutcome(payload: Payload, now: string): Outcome {
    var verdict := Judge(payload);
    var lines := match verdict
      case Accepted(email, interest) => [SubmissionLine(email, interest, now)]
      case Rejected(_) => [];
    Outcome(Some(SubscribeResponse(verdict)), lines)
  }

  /** `JSON.parse(body || '{}')` */
  function ParseBody(body: string, parse: string -> Payload): Payload {
    parse(if body == "" then "{}" else body)
  }

  function Dispatch(req: Request, rootSegs: seq<string>, read: string -> Option<seq<byte>>,
                    parse: string -> Payload, now: string): Outcome
  {
    if req.verb == "POST" && req.url == SubscribePath then
      match BodyWithinCap(req.chunks)
      case None => Outcome(None, [])
      case Some(body) => SubscribeOutcome(ParseBody(body, parse), now)
    else if req.verb == "GET" then Outcome(Some(ServeStatic(rootSegs, req.url, read)), [])
    else Outcome(Some(PlainResponse(405, "Method not allowed")), [])
  }

  /** The request listener, writing accepted leads to `log`. */
  method HandleRequest(log: SubmissionLog, req: Request, rootSegs: seq<string>,
                       read: string -> Option<seq<byte>>, parse: string -> Payload, now: string)
    returns (response: Option<Response>)
    modifies log
    ensures response == Dispatch(req, rootSegs, read, parse, now).response
    ensures log.lines == old(log.lines) + Dispatch(req, rootSegs, read, parse, now).appended
    ensures ReadableLog(old(log.lines)) ==> ReadableLog(log.lines)
  {
    AppendOnlyOnSuccess(req, rootSegs, read, parse, now);
    AppendKeepsReadable(log.lines, Dispatch(req, rootSegs, read, parse, now).appended);
    if req.verb == "POST" && req.url == SubscribePath {
      var body, aborted := ReadBody(req.chunks);
      if aborted {
        response := None;
        return;
      }
      var payload := ParseBody(body, parse);
      var verdict := Judge(payload);
      match verdict {
        case Rejected(message) =>
          response := Some(JsonMessage(400, message));
        case Accepted(email, interest) =>
          AppendSubmission(log, email, interest, now);
          response := Some(JsonMessage(200, RecordedMessage));
      }
    } else if req.verb == "GET" {
      response := Some(ServeStatic(rootSegs, req.url, read));
    } else {
      response := Some(PlainResponse(405, "Method not allowed"));
    }
  }

  predicate IsSubscribe(req: Request) {
    req.verb == "POST" && req.url == SubscribePath
  }

  /** The routing table: a subscribe request over the cap gets no answer; a
      `GET` other than a subscribe request is answered from the static
      files; anything else that is not a subscribe request gets 405; and
      nothing but a subscribe request touches the log. */
  lemma Routing(req: Request, rootSegs: seq<string>, read: string -> Option<seq<byte>>,
                parse: string -> Payload, now: string)
    ensures var o := Dispatch(req, rootSegs, read, parse, now);
      && (o.response.None? <==> IsSubscribe(req) && Utf16Length(Concat(req.chunks)) > MaxBodyLength)
      && (!IsSubscribe(req) && req.verb == "GET" ==> o.response == Some(ServeStatic(rootSegs, req.url, read)))
      && (!IsSubscribe(req) && req.verb != "GET" ==>
            o.response == Some(Response(405, None, Text("Method not allowed"))))
      && (!IsSubscribe(req) ==> o.appended == [])
      && (IsSubscribe(req) && o.response.Some? ==> o.response.value.contentType == Some(JsonContentType))
  {
  }

  /** A subscribe request within the cap is handled on its whole body. */
  lemma DispatchSubscribe(req: Request, rootSegs: seq<string>, read: string -> Option<seq<byte>>,
                          parse: string -> Payload, now: string)
    requires IsSubscribe(req) && Utf16Length(Concat(req.chunks)) <= MaxBodyLength
    ensures Dispatch(req, rootSegs, read, parse, now) == SubscribeOutcome(ParseBody(Concat(req.chunks), parse), now)
  {
  }

  /** A subscribe request over the cap is dropped without an answer. */
  lemma DispatchOversized(req: Request, rootSegs: seq<string>, read: string -> Option<seq<byte>>,
                          parse: string -> Payload, now: string)
    requires IsSubscribe(req) && Utf16Length(Concat(req.chunks)) > MaxBodyLength
    ensures Dispatch(req, rootSegs, read, parse, now) == Outcome(None, [])
  {
  }

  /** Every other request is answered and appends nothing. */
  lemma DispatchOther(req: Request, rootSegs: seq<string>, read: string -> Option<seq<byte>>,
                      parse: string -> Payload, now: string)
    requires !IsSubscribe(req)
    ensures Dispatch(req, rootSegs, read, parse, now).response.Some?
    ensures Dispatch(req, rootSegs, read, parse, now).appended == []
  {
  }

  /** A record of a lead: a normalised e-mail that matches the pattern,
      the label of one of the categories, and the time of writing. */
  ghost predicate IsLead(r: Record, now: string) {
    && r.datetime == now
    && MatchesEmailPattern(r.email)
    && LowerCase(r.email)
    && '\n' !in r.email
    && exists c: Category :: c.Label() == r.choice
  }

  /** The line written for an accepted lead reads back as the lead: its
      normalised e-mail, the label of its interest and the time stamp. */
  lemma AcceptedLine(payload: Payload, email: string, interest: string, now: string)
    requires Judge(payload) == Accepted(email, interest)
    ensures ParseLine(SubmissionLine(email, interest, now)) == Some(Record(email, FormatChoiceLabel(interest), now))
    ensures IsLead(Record(email, FormatChoiceLabel(interest), now), now)
  {
    AcceptedShape(payload, email, interest);
    LabelHasNoSpace(interest);
    ParseLogLine(email, FormatChoiceLabel(interest), now);
    var c := ParseCategory(interest).value;
    KeyRoundTrip(c);
    assert c.Label() == FormatChoiceLabel(interest);
  }

  /** A line with one newline, at its end. */
  predicate EndsOnce(line: string) {
    |line| > 0 && line[|line| - 1] == '\n' && forall k :: 0 <= k < |line| - 1 ==> line[k] != '\n'
  }

  /** A line that reads back as a lead ends in a newline, its only one, as
      long as the time stamp has none. */
  lemma LeadLineEndsOnce(line: string, now: string)
    requires ParseLine(line).Some? && IsLead(ParseLine(line).value, now) && '\n' !in now
    ensures EndsOnce(line)
  {
    var r := ParseLine(line).value;
    ParsedIsLogLine(line);
    var c: Category :| c.Label() == r.choice;
    KeyRoundTrip(c);
    LabelHasNoSpace(c.Key());
    LineEndsOnce(r.email, r.choice, r.datetime);
  }

  /** The handler appends one line exactly when it answers 200; that line
      reads back as a lead whose e-mail is the normalised e-mail field and
      whose label is that of the normalised interest field. */
  lemma SubscribeAppends(payload: Payload, now: string)
    ensures var o := SubscribeOutcome(payload, now);
      && o.response.Some? && |o.appended| <= 1
      && (o.appended != [] <==> o.response.value.status == 200)
      && (o.appended != [] ==>
            && payload.Parsed?
            && ParseLine(o.appended[0]) == Some(Record(Normalise(Field(payload.fields, "email")),
                 FormatChoiceLabel(Normalise(Field(payload.fields, "interest"))), now))
            && IsLead(ParseLine(o.appended[0]).value, now)
            && ('\n' !in now ==> EndsOnce(o.appended[0])))
  {
    var verdict := Judge(payload);
    var o := SubscribeOutcome(payload, now);
    assert o.response == Some(SubscribeResponse(verdict));
    if verdict.Accepted? {
      var email, interest := verdict.email, verdict.interest;
      AcceptedFields(payload, email, interest);
      assert o.appended == [SubmissionLine(email, interest, now)];
      AcceptedLine(payload, email, interest, now);
      if '\n' !in now {
        LeadLineEndsOnce(o.appended[0], now);
      }
    } else {
      assert o.appended == [];
    }
  }

  lemma AcceptedFields(payload: Payload, email: string, interest: string)
    requires Judge(payload) == Accepted(email, interest)
    ensures payload.Parsed?
    ensures email == Normalise(Field(payload.fields, "email"))
    ensures interest == Normalise(Field(payload.fields, "interest"))
  {
    var rawEmail := Field(payload.fields, "email");
    var rawInterest := Field(payload.fields, "interest");
    JudgeOnFields(payload, rawEmail, rawInterest);
    DecideAccepted(Normalise(rawEmail), Normalise(rawInterest), email, interest);
  }

  /** The log grows by exactly one line on the 200 path and by none on any
      other; that line reads back as a lead. */
  lemma AppendOnlyOnSuccess(req: Request, rootSegs: seq<string>,
                            read: string -> Option<seq<byte>>,
                            parse: string -> Payload, now: string)
    ensures var o := Dispatch(req, rootSegs, read, parse, now);
      && |o.appended| <= 1
      && (o.appended != [] <==> IsSubscribe(req) && o.response.Some? && o.response.value.status == 200)
      && (o.appended != [] ==> ParseLine(o.appended[0]).Some? && IsLead(ParseLine(o.appended[0]).value, now))
      && (o.appended != [] && '\n' !in now ==> EndsOnce(o.appended[0]))
  {
    if !IsSubscribe(req) {
      DispatchOther(req, rootSegs, read, parse, now);
    } else if Utf16Length(Concat(req.chunks)) > MaxBodyLength {
      DispatchOversized(req, rootSegs, read, parse, now);
    } else {
      DispatchSubscribe(req, rootSegs, read, parse, now);
      SubscribeAppends(ParseBody(Concat(req.chunks), parse), now);
    }
  }

  /** An empty body is read as `{}`, which has no e-mail. */
  lemma EmptyBodyAsksForEmail(req: Request, rootSegs: seq<string>,
                              read: string -> Option<seq<byte>>,
                              parse: string -> Payload, now: string)
    requires IsSubscribe(req) && Concat(req.chunks) == ""
    requires parse("{}") == Parsed(map[])
    ensures Dispatch(req, rootSegs, read, parse, now)
      == Outcome(Some(JsonMessage(400, InvalidEmailMessage)), [])
  {
    DispatchSubscribe(req, rootSegs, read, parse, now);
    MissingEmailRejected(map[]);
  }

  /** A body within the cap that is not a JSON object, or is `null`, gets
      400 "Invalid request payload." and leaves the log alone. */
  lemma UnparsableBodyRejected(req: Request, rootSegs: seq<string>,
                               read: string -> Option<seq<byte>>,
                               parse: string -> Payload, now: string)
    requires IsSubscribe(req) && Utf16Length(Concat(req.chunks)) <= MaxBodyLength
    requires !ParseBody(Concat(req.chunks), parse).Parsed?
    ensures Dispatch(req, rootSegs, read, parse, now)
      == Outcome(Some(JsonMessage(400, InvalidPayloadMessage)), [])
  {
    DispatchSubscribe(req, rootSegs, read, parse, now);
    UnparsedRejected(ParseBody(Concat(req.chunks), parse));
  }

  /** Every line reads back as a record. */
  ghost predicate ReadableLog(lines: seq<string>) {
    forall i :: 0 <= i < |lines| ==> ParseLine(lines[i]).Some?
  }

  lemma ReadableAppend(lines: seq<string>, more: seq<string>)
    requires ReadableLog(lines) && ReadableLog(more)
    ensures ReadableLog(lines + more)
  {
    var all := lines + more;
    forall i | 0 <= i < |all| ensures ParseLine(all[i]).Some? {
      if i >= |lines| {
        assert all[i] == more[i - |lines|];
      } else {
        assert all[i] == lines[i];
      }
    }
  }

  /** Appending at most one line that reads back keeps a readable log
      readable. */
  lemma AppendKeepsReadable(lines: seq<string>, appended: seq<string>)
    requires |appended| <= 1 && (appended != [] ==> ParseLine(appended[0]).Some?)
    ensures ReadableLog(lines) ==> ReadableLog(lines + appended)
  {
    if ReadableLog(lines) {
      assert ReadableLog(appended) by {
        forall i | 0 <= i < |appended| ensures ParseLine(appended[i]).Some? {
          assert i == 0;
        }
      }
      ReadableAppend(lines, appended);
    }
  }
}
