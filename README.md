# Lead-capture server, modelled in Dafny

This project models `server.js`, a small Node HTTP server for a landing
page. The server does three things:

- **Recording leads.** `POST /api/subscribe` takes a JSON body with an
  `email` and an `interest`. Both fields are trimmed and lower-cased. The
  e-mail is checked against `^[^\s@]+@[^\s@]+\.[^\s@]+$` and the interest
  against the keys `influencer`, `need` and `curious`. The answer is the
  message of the first check that fails, or the lead is recorded as one
  line `email=<e> | choice=<Label> | datetime=<ISO time>\n` in an
  append-only log.
- **Serving static files.** `GET` requests for any path are served from
  the server's directory. The path is normalised, leading `../` and `..\`
  are stripped, and the result is joined to the directory. A result that does
  not start with the directory's path gets 403, and an unreadable file
  gets 404. Otherwise the bytes are sent with a content type chosen from
  the file's extension.
- **Dispatching requests.** A request that is neither `POST /api/subscribe`
  nor a `GET` gets 405. A subscribe body
  longer than 1,000,000 UTF-16 code units (`body.length`) ends the request
  without an answer.

## Modules

- `Text`: white space, ASCII lower-casing, trimming, the normalisation
  `ToLower(Trim(s))`, the UTF-16 length that `length` counts, first and
  last positions of a character, and `startsWith`.
- `Email`: the regular expression, stated as a predicate, and a structural
  check proved equal to it.
- `Interest`: the three categories, their keys and labels,
  `isValidInterest` and `formatChoiceLabel`.
- `Submissions`: the log line, a parser that reads it back, and the log. The
  log is a class `SubmissionLog` with a `seq<string>` field that is only
  appended to.
- `Paths`: POSIX `path.normalize`, `path.join` and `path.extname` on `/`
  segments, plus the leading-parent strip.
- `Static`: `CONTENT_TYPES` and `serveStaticFile`.
- `Http`: responses as values.
- `Subscribe`: the subscribe handler's decision once the body is parsed.
- `Server`:
  - the body-reading loop, as a method over the chunks;
  - dispatch, as a function from a request to an `Outcome`, which is the
    response plus the lines appended;
  - the listener, as a method that writes to a `SubmissionLog`.

The outside world is passed in as parameters:

- `read` is the file system as `fs.readFile` sees it. It gives the bytes,
  or nothing on an error.
- `parse` is `JSON.parse` followed by the `String()` of both fields, with
  its result as a `Payload`:
  - `Malformed` for any exception before the checks: a syntax error, or
    `String()` throwing on the value of either field;
  - `NullValue` for `null`;
  - `Parsed(fields)` for any other value. `fields` holds, as strings,
    those fields whose value is truthy. A value that is not an object,
    such as `5` or `"s"`, has no fields and is `Parsed(map[])`.
- `now` is the time stamp `new Date().toISOString()` gives.
- `rootSegs` is `__dirname` as a list of clean segments.

## Model

The defining functions (`IsValidEmail`, `IsValidInterest`, `Judge`,
`Decide`, `LogLine`, `SubmissionLine`, `Normalize`, `JoinPath`,
`ContentTypeFor`, `ServeStatic`, `Dispatch`, `BodyWithinCap` and the like)
carry no contract of their own. Each is listed through the lemmas about it,
which cite the same lines.

| member | source | states |
|---|---|---|
| Email.EmailShape | server.js:24-26 | `isValidEmail` stated structurally (no white space, exactly one `@`, a non-empty local part, a domain with a `.` that is neither its first nor its last character) holds exactly when the regular expression matches the whole string |
| Email.ValidMatches | server.js:24-26 | every string passing the structural check is matched by the regular expression |
| Email.MatchesValid | server.js:24-26 | every string the regular expression matches, at any `@` and `.` splitting it into three runs, passes the structural check |
| Email.EmptyIsInvalid | server.js:24-26 | the empty string, which a missing field becomes, fails the e-mail check in both forms |
| Interest.InterestKeysExact | server.js:28-30 | a string is a valid interest exactly when it is the key of one of the three categories |
| Interest.FormatChoiceLabel | server.js:32-36 | the label is `Influencer` exactly for `influencer`, `Need` exactly for `need`, and `Curious` for every other string |
| Interest.ParseCategory | server.js:28-30 | gives the category whose key the string is, or nothing when no category has that key |
| Interest.KeyRoundTrip | server.js:28-36 | each category's key parses back to that category, is a valid interest, and is labelled with that category's label |
| Interest.LabelsDistinct | server.js:32-36 | two valid interests get the same label only when they are the same key |
| Interest.LabelHasNoSpace | server.js:32-36 | no label holds a space or a newline |
| Text.ToLower | server.js:84-85 | lower-casing keeps the length, maps each character by itself, and leaves no upper-case letter |
| Text.TrimStart | server.js:84-85 | what is removed is all white space, and what is left is a suffix that starts with no white space |
| Text.TrimEnd | server.js:84-85 | what is removed is all white space, and what is left is a prefix that ends with no white space |
| Text.TrimSpec | server.js:84-85 | `trim` leaves a slice of the input with no white space at either end, and leaves such a string unchanged |
| Text.NormaliseIdempotent | server.js:84-85 | trimming and lower-casing an already normalised string changes nothing |
| Text.NormaliseShape | server.js:84-85 | a normalised string has no white space at its ends and no upper-case letter |
| Text.LowerFixed | server.js:84-85 | a string without upper-case letters is its own lower-case form |
| Text.IndexOf | server.js:24-26 | a helper of the structural e-mail check: the first position of a character, or the length when it is absent |
| Text.LastIndexOf | server.js:63 | a helper of `path.extname`: the last position of a character, or -1 when it is absent |
| Text.Utf16Append | server.js:75-76 | the UTF-16 length of two strings glued together is the sum of their lengths |
| Text.Utf16Bounds | server.js:76 | a string has between one and two code units per character, and exactly one per character when all lie in the Basic Multilingual Plane |
| Subscribe.DecideOrder | server.js:87-98 | a normalised e-mail that does not match the pattern is rejected with the e-mail message whatever the interest; a matching e-mail with an unknown interest is rejected with the interest message; only both valid are accepted, unchanged |
| Subscribe.JudgeOrder | server.js:83-98 | a parsed payload is decided on its trimmed, lower-cased `email` and `interest` fields in the same order and with the same messages |
| Subscribe.UnparsedRejected | server.js:83-100 | a body that fails to parse, or parses to `null`, is rejected as an invalid payload |
| Subscribe.MissingEmailRejected | server.js:84-90 | a payload without an e-mail is rejected for its e-mail |
| Subscribe.AcceptedShape | server.js:84-97 | an accepted e-mail is lower-case, free of white space, a match of the pattern, and free of spaces and newlines; an accepted interest is one of the three keys |
| Subscribe.AcceptedIsNormal | server.js:84-85 | the accepted e-mail and interest are their own normal forms |
| Subscribe.NormalisedInputSameVerdict | server.js:84-97 | submitting the normalised fields in place of the raw ones gives the same decision |
| Subscribe.SubscribeResponse | server.js:87-100 | every answer is JSON; status 200 exactly for an accepted lead, with the recorded message; every other decision is a 400 carrying its own message |
| Http.MessageJsonInjective | server.js:19-22 | different messages give different JSON bodies |
| Subscribe.RejectionsDistinguishable | server.js:87-100 | two rejections for different reasons answer with different bodies |
| Submissions.ParseLogLine | server.js:38-41 | a line written for a space-free e-mail and label reads back as the record it was written from |
| Submissions.ParsedIsLogLine | server.js:41 | the reader accepts only lines in the written format |
| Submissions.LineEndsOnce | server.js:41 | a line built from parts without newlines ends in a newline, and that is its only newline |
| Submissions.TaggedWord | server.js:41 | reading a tag and a word succeeds exactly when the text starts with the tag, and splits it at the first space |
| Submissions.TaggedLast | server.js:41 | reading the last tag succeeds exactly when the text starts with the tag and ends, after it, in a newline, and gives the text between the two |
| Submissions.SubmissionLog.constructor | server.js:6 | a new log has no lines |
| Submissions.SubmissionLog.Append | server.js:42 | appending puts the line at the end and keeps every earlier line as it was |
| Submissions.AppendSubmission | server.js:38-43 | appends exactly the line for the e-mail, the label of the interest and the time stamp, and changes nothing else |
| Paths.Split | server.js:47-48 | splitting at `/` gives at least one segment, and no segment holds a `/` |
| Paths.JoinSplit | server.js:47-48 | joining the segments of a path with `/` gives the path back |
| Paths.SplitJoin | server.js:47-48 | splitting the join of slash-free segments gives the segments back |
| Paths.ResolveAppend | server.js:47-48 | resolving two runs of segments one after the other is the same as resolving them together |
| Paths.ResolveShape | server.js:47 | the resolved stack holds no empty segment and no `.`; its `..` all come first; an absolute path has none |
| Paths.ResolveParentsAtTop | server.js:47-48 | at the top of an absolute path, `..` segments are dropped |
| Paths.ResolveNoParent | server.js:48 | resolving slash-free segments without `..` onto a stack keeps the stack as a prefix and adds only clean segments |
| Paths.NormalizeShape | server.js:47 | in a normalised path every `..` comes before every real segment |
| Paths.StripParents | server.js:47 | the leading-parent strip cuts off only whole `../` or `..\` units from the front, and leaves a suffix that does not start with either |
| Paths.StripShape | server.js:47 | the strip keeps every `..` ahead of every real segment |
| Paths.StrippedCases | server.js:47 | a normalised and stripped path is `..` itself or holds no `..` segment |
| Paths.ExtName | server.js:63 | the extension is a suffix of the base name that starts at its last `.` and holds no other `.` and no `/`; it is empty exactly when the base name is `..` or has no `.` after its first character |
| Paths.ExtOfBase | server.js:63 | the extension of a base name is the suffix from its last `.`, shorter than the name; empty exactly when the name is `..` or has no `.` after its first character |
| Paths.BaseName | server.js:63 | the base name holds no `/` |
| Paths.BaseNameIsLastSegment | server.js:63 | the base name is the part of the path, without its trailing slashes, after its last `/` |
| Paths.BaseNameAfterSlash | server.js:63 | the base name of `dir/name` is `name` |
| Static.ContentTypeLookup | server.js:63-64 | ignores the case of the extension; a listed extension gets its entry, and every other one gets `application/octet-stream` |
| Static.ListedContentTypes | server.js:8-17 | each of the eight listed extensions gets its own type, and an unlisted or empty extension gets the generic binary type |
| Static.UpperCaseContentTypes | server.js:63-64 | upper-case `.HTML` and `.JPG` get the entries of their lower-case forms |
| Static.ResolveRoot | server.js:48 | the directory path resolves to the directory's own segments |
| Static.ResolveRootThen | server.js:48 | `path.join(__dirname, q)` resolves `q` on top of the directory's segments |
| Static.JoinedFile | server.js:48 | the joined file path is the resolved segments written out under `/` |
| Static.JoinNoParent | server.js:48-50 | joining a path free of `..` stays inside the directory, both as segments and as a string prefix |
| Static.JoinParent | server.js:48-50 | joining `..` leaves the directory, as segments and as a string, unless the directory is `/` |
| Static.SafeRelativeCases | server.js:46-47 | what normalising and stripping leave of a request path is `..` or free of `..` segments |
| Static.GuardIsContainment | server.js:46-50 | the string-prefix guard passes exactly when the resolved file lies, segment by segment, inside the directory; it fails exactly when `..` was left and the directory is not `/`; the resolved segments are always clean |
| Static.ForbiddenExactly | server.js:46-54 | the answer is 403 exactly when stripping leaves `..` and the directory is not `/` |
| Static.ServeStaticOutcomes | server.js:45-68 | the only statuses are 200, 403 and 404; 200 exactly for a file inside the directory that `read` found, with its bytes and the content type of its extension; 403 `Forbidden` and 404 `Not found` carry no file body |
| Static.NamedRelative | server.js:47 | `/name` for a clean name survives the normalisation and the strip unchanged |
| Static.TraversalRelative | server.js:47 | any number of leading `..` in front of clean segments are dropped |
| Static.TraversalStaysInside | server.js:46-54 | a request like `/../../x` resolves to `x` inside the directory and passes the guard |
| Static.NamedFile | server.js:46-50 | a request path naming one file at the top resolves to that file in the directory and passes the guard |
| Static.RootIndexFile | server.js:46-50 | `/` resolves to `index.html` in the server's directory and passes the guard |
| Static.IndexExtension | server.js:46-63 | a file called `index.html` has the extension `.html` |
| Static.RootDocument | server.js:45-68 | `/`, when `index.html` can be read, is answered 200 with its bytes as `text/html; charset=utf-8` |
| Static.ParentIsForbidden | server.js:47-54 | a bare `..` escapes the strip and is refused with 403 when the directory is not `/` |
| Server.ReadBody | server.js:72-79 | reads the whole body when it stays within the cap; otherwise stops at the first chunk that takes it over 1,000,000 UTF-16 code units |
| Server.ConcatGrows | server.js:75-76 | the body's length only grows as chunks arrive |
| Server.HandleRequest | server.js:70-114 | the listener answers as `Dispatch` says, appends exactly the lines `Dispatch` says, and keeps a log whose every line reads back as a record in that state |
| Server.Routing | server.js:70-114 | no answer exactly for a subscribe request over the cap; other `GET` requests are served from the static files; other methods get 405; only a subscribe request touches the log; every subscribe answer is JSON |
| Server.DispatchSubscribe | server.js:71-83 | a subscribe request within the cap is handled on its whole body |
| Server.DispatchOversized | server.js:76-77 | a subscribe request over the cap gets no answer and appends nothing |
| Server.DispatchOther | server.js:107-113 | every request other than a subscribe request is answered and appends nothing |
| Server.AcceptedLine | server.js:38-41 | the line written for an accepted lead reads back as its normalised e-mail, the label of its interest and the time stamp, which is a lead |
| Server.LeadLineEndsOnce | server.js:41 | a line that reads back as a lead ends in a newline, and that is its only newline, when the time stamp has none |
| Server.SubscribeAppends | server.js:81-101 | the handler appends one line exactly when it answers 200; that line reads back as the normalised e-mail field, the label of the normalised interest field and the time, and ends in its only newline |
| Server.AppendOnlyOnSuccess | server.js:70-114 | a request appends at most one line, and does so exactly when it is a subscribe request answered 200; that line reads back as a lead and ends in its only newline |
| Server.EmptyBodyAsksForEmail | server.js:83-90 | an empty body is read as `{}` and answered 400 with the e-mail message, with nothing appended |
| Server.UnparsableBodyRejected | server.js:83-100 | a body within the cap that does not parse, or is `null`, is answered 400 `Invalid request payload.` with nothing appended |
| Server.ReadableAppend | server.js:42 | appending readable lines to a readable log keeps it readable |
| Server.AppendKeepsReadable | server.js:97-98 | appending at most one readable line keeps a readable log readable |

## Left out

- The HTTP server itself: `http.createServer`, `server.listen`, `PORT`,
  `LEADS_FILE` and the writing of headers and bodies. Responses are
  values, and what `res.writeHead`/`res.end` send is the `Response`.
- `fs.readFile` and `fs.appendFileSync`. Reading is the `read` parameter.
  The log lives in memory as `SubmissionLog`.
- The path `appendFileSync` throwing inside the `try`, which would answer
  400 `Invalid request payload.` after a valid lead. The in-memory log
  cannot fail.
- `JSON.parse` and the `String()` coercion of arbitrary JSON values. These
  are the `parse` parameter and the `Payload` it returns. The model does
  not compute what `String()` gives for numbers, arrays or objects, nor
  when it throws; a throw on either field is `Malformed`.
- `new Date().toISOString()`. The time stamp is the `now` parameter.
- Unicode lower-casing: `toLowerCase` is modelled on the ASCII letters
  only. The white space of `trim` and `\s` is the full ECMAScript set,
  shared by both.
- `path.normalize`, `path.join` and `path.extname` are modelled for POSIX
  paths on `/` segments.
  - The server's directory is given as clean segments.
  - The URL is used as a path as it is, query string and percent-escapes
    included, as the source does.
  - `\` is an ordinary character, except in the strip pattern `..\`.
- Streaming, `req.destroy()` and the connection teardown. The body arrives
  as a list of chunks. An aborted request is an `Outcome` with no response
  and no appended line, and reading stops at the chunk that went over.
- The body cap counts UTF-16 code units, as `body.length` does, and not
  bytes. Each chunk is taken as already decoded text: the source decodes
  each `Buffer` chunk on its own, so a character split across two chunks
  becomes U+FFFD, which string chunks cannot show.
- Concurrency: requests are handled one at a time, so appends are never
  interleaved.
- `Server.HandleRequest`: the log invariant states readability of every
  line, not that every line is a lead. A log may start with lines written
  by someone else.
- `Server.LeadLineEndsOnce`, `Server.SubscribeAppends`, `Server.AppendOnlyOnSuccess`: the newline property needs the time stamp to hold no newline, which `toISOString` ensures but the `now` parameter does not.
