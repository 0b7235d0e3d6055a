/**
 * The submissions log: the line `appendSubmission` writes for an accepted
 * lead, a parser that reads such a line back, and the log itself, which is
 * only ever appended to.
 */
module Submissions {
  import opened Wrappers
  import opened Text
  import opened Interest

  const EmailTag: string := "email="
  const ChoiceTag: string := " | choice="
  const DatetimeTag: string := " | datetime="

  /** One recorded lead, as its log line carries it. */
  datatype Record = Record(email: string, choice: string, datetime: string)

  /** The text of one log line. */
  function LogLine(email: string, choice: string, datetime: string): string {
    EmailTag + (email + (ChoiceTag + (choice + (DatetimeTag + (datetime + "\n")))))
  }

  /** The line `appendSubmission` writes: the key is shown by its label, and
      `now` is the ISO-8601 time stamp of the moment of writing. */
  function SubmissionLine(email: string, interest: string, now: string): string {
    LogLine(email, FormatChoiceLabel(interest), now)
  }

  /** What follows `tag` at the start of `s`, if `s` starts with it. */
  function After(s: string, tag: string): (r: Option<string>)
    ensures r.Some? <==> StartsWith(s, tag)
    ensures r.Some? ==> s == tag + r.value
  {
    if StartsWith(s, tag) then Some(s[|tag|..]) else None
  }

  /** `s` cut at its first space. */
  function CutAtSpace(s: string): (r: (string, string))
    ensures s == r.0 + r.1 && ' ' !in r.0
    ensures r.1 == [] || r.1[0] == ' '
  {
    var k := IndexOf(s, ' ');
    (s[..k], s[k..])
  }

  /** Reads `tag` and then a word up to the next space. */
  function TaggedWord(s: string, tag: string): (r: Option<(string, string)>)
    ensures r.Some? <==> StartsWith(s, tag)
    ensures r.Some? ==> s == tag + (r.value.0 + r.value.1) && ' ' !in r.value.0
    ensures r.Some? ==> r.value.1 == [] || r.value.1[0] == ' '
  {
    match After(s, tag)
    case None => None
    case Some(rest) => Some(CutAtSpace(rest))
  }

  /** Reads `tag` and then everything up to a final newline. */
  function TaggedLast(s: string, tag: string): (r: Option<string>)
    ensures r.Some? <==> StartsWith(s, tag) && |s| > |tag| && s[|s| - 1] == '\n'
    ensures r.Some? ==> s == tag + (r.value + "\n")
  {
    match After(s, tag)
    case None => None
    case Some(stamp) =>
      if stamp == [] || stamp[|stamp| - 1] != '\n' then None
      else Some(stamp[..|stamp| - 1])
  }

  /** Reads one log line: the e-mail and the label end at the first space,
      and the time stamp runs up to the final newline. */
  function ParseLine(line: string): Option<Record> {
    match TaggedWord(line, EmailTag)
    case None => None
    case Some((email, rest)) =>
      match TaggedWord(rest, ChoiceTag)
      case None => None
      case Some((choice, tail)) =>
        match TaggedLast(tail, DatetimeTag)
        case None => None
        case Some(datetime) => Some(Record(email, choice, datetime))
  }

  lemma AfterTag(tag: string, rest: string)
    ensures After(tag + rest, tag) == Some(rest)
  {
    assert (tag + rest)[..|tag|] == tag;
  }

  lemma {:induction false} CutWord(word: string, rest: string)
    requires ' ' !in word && rest != [] && rest[0] == ' '
    ensures CutAtSpace(word + rest) == (word, rest)
  {
    IndexOfAfter(word, ' ', rest[1..]);
    assert word + rest == word + [' '] + rest[1..];
  }

  /** Every line written for a space-free e-mail and label reads back as the
      record it was written from. */
  lemma {:induction false} ParseLogLine(email: string, choice: string, datetime: string)
    requires ' ' !in email && ' ' !in choice
    ensures ParseLine(LogLine(email, choice, datetime)) == Some(Record(email, choice, datetime))
  {
    var stamp := datetime + "\n";
    var tail := DatetimeTag + stamp;
    var afterChoice := choice + tail;
    var rest := ChoiceTag + afterChoice;
    var afterTag := email + rest;
    assert LogLine(email, choice, datetime) == EmailTag + afterTag;
    AfterTag(EmailTag, afterTag);
    CutWord(email, rest);
    AfterTag(ChoiceTag, afterChoice);
    CutWord(choice, tail);
    AfterTag(DatetimeTag, stamp);
    assert stamp[..|stamp| - 1] == datetime;
  }

  /** The parser accepts only lines of the log format. */
  lemma ParsedIsLogLine(line: string)
    requires ParseLine(line).Some?
    ensures var r := ParseLine(line).value;
      line == LogLine(r.email, r.choice, r.datetime) && ' ' !in r.email && ' ' !in r.choice
  {
  }

  /** A line built from newline-free parts ends in a newline, its only one. */
  lemma {:induction false} LineEndsOnce(email: string, choice: string, datetime: string)
    requires '\n' !in email && '\n' !in choice && '\n' !in datetime
    ensures var line := LogLine(email, choice, datetime);
      && line[|line| - 1] == '\n'
      && forall k :: 0 <= k < |line| - 1 ==> line[k] != '\n'
  {
    var body := EmailTag + email + ChoiceTag + choice + DatetimeTag + datetime;
    assert '\n' !in body;
    assert LogLine(email, choice, datetime) == body + "\n";
  }

  /** The log of accepted leads, one line per lead, oldest first. */
  class SubmissionLog {
    var lines: seq<string>

    constructor ()
      ensures lines == []
    {
      lines := [];
    }

    /** One append call: the new line goes at the end, and every earlier
        line stays as it was. */
    method Append(line: string)
      modifies this
      ensures lines == old(lines) + [line]
    {
      lines := lines + [line];
    }
  }

  /** `appendSubmission`: writes the line for `email` and `interest`. */
  method AppendSubmission(log: SubmissionLog, email: string, interest: string, now: string)
    modifies log
    ensures log.lines == old(log.lines) + [SubmissionLine(email, interest, now)]
  {
    var choice := FormatChoiceLabel(interest);
    var line := LogLine(email, choice, now);
    log.Append(line);
  }
}
