/**
 * The helpers around the Gemini enrichment call (`cli/gemini_utils.py`): loading a question set,
 * numbering the questions into a prompt, parsing a suggested retry delay, stripping code fences
 * from a reply, and turning the outcome of one model call into the record that is saved.
 *
 * The model call itself, `json.loads` and the clock are parameters: the reply (text, or client
 * error with its details), a parse function, and the timestamp.
 */
module Gemini {
  import opened Wrappers
  import opened Text

  const ModelName := "gemini-2.0-flash"

  // ---------------------------------------------------------------------------------------------
  // Question sets

  /** The fields of a `questions_v<version>.json` file that are read. */
  datatype QuestionsFile = QuestionsFile(instructions: string, questions: seq<string>, version: Option<string>)

  function QuestionsFileName(version: string): string {
    "questions_v" + version + ".json"
  }

  /**
   * `load_questions`: the instructions, the questions and the set's label, read from the file for
   * `version` (default `"1"`); the label is the file's `version` field, else `"v"` + the version.
   * A missing file raises, which is a failure naming the file.
   */
  function LoadQuestions(dir: map<string, QuestionsFile>, version: Option<string>): (r: Result<(string, seq<string>, string), string>)
    ensures r.Success? <==> QuestionsFileName(version.GetOr("1")) in dir
    ensures r.Failure? ==> r.error == QuestionsFileName(version.GetOr("1"))
    ensures r.Success? ==>
      var f := dir[QuestionsFileName(version.GetOr("1"))];
      && r.value.0 == f.instructions && r.value.1 == f.questions
      && (f.version.Some? ==> r.value.2 == f.version.value)
      && (f.version.None? ==> r.value.2 == "v" + version.GetOr("1"))
  {
    var v := version.GetOr("1");
    var name := QuestionsFileName(v);
    if name !in dir then Failure(name)
    else
      var f := dir[name];
      Success((f.instructions, f.questions, f.version.GetOr("v" + v)))
  }

  // ---------------------------------------------------------------------------------------------
  // Prompt

  /** The line for question `k` (1-based). */
  function QuestionLine(k: nat, q: string): string {
    NatToDecimal(k) + ". " + q
  }

  /** The comprehension in `build_prompt`: one numbered line per question, in order. */
  function NumberedLines(questions: seq<string>): (lines: seq<string>)
    ensures |lines| == |questions|
    ensures forall i :: 0 <= i < |questions| ==> lines[i] == QuestionLine(i + 1, questions[i])
  {
    if questions == [] then []
    else NumberedLines(questions[..|questions| - 1]) + [QuestionLine(|questions|, questions[|questions| - 1])]
  }

  function Numbered(questions: seq<string>): string {
    Join("\n", NumberedLines(questions))
  }

  const QuestionsHeading := "\n\nQuestions:\n"
  const NoteHeading := "\n\nInput note:\n"
  const FormatHeading := "\n\nOutput format:\n"
  const JsonFence := "```json"
  /** The rest of the output-format template, after its opening fence, and the final newline. */
  const TemplateBody := "\n{\n  \"q1\": \"Answer to question 1\",\n  ...\n  \"q12\": \"Answer to question 12\"\n}\n```\n"

  /** `build_prompt`. */
  function BuildPrompt(content: string, instructions: string, questions: seq<string>): (r: string)
    ensures StartsWith(r, "\n" + instructions + QuestionsHeading)
    ensures EndsWith(r, TemplateBody)
  {
    var s2 := "\n" + instructions + QuestionsHeading;
    var s3 := s2 + Numbered(questions);
    var s4 := s3 + NoteHeading;
    var s5 := s4 + content;
    var s6 := s5 + FormatHeading;
    var s7 := s6 + JsonFence;
    assert s2[..|s2|] == s2;
    StartsWithAppend(s2, s2, Numbered(questions));
    StartsWithAppend(s3, s2, NoteHeading);
    StartsWithAppend(s4, s2, content);
    StartsWithAppend(s5, s2, FormatHeading);
    StartsWithAppend(s6, s2, JsonFence);
    StartsWithAppend(s7, s2, TemplateBody);
    assert (s7 + TemplateBody)[|s7|..] == TemplateBody;
    s7 + TemplateBody
  }

  lemma {:induction false} JoinContainsItem(sep: string, items: seq<string>, i: nat)
    requires i < |items|
    ensures Contains(Join(sep, items), items[i])
  {
    if |items| == 1 {
      ContainsSelf(items[0]);
    } else if i == 0 {
      ContainsSelf(items[0]);
      ContainsRight(items[0], sep, items[0]);
      ContainsRight(items[0] + sep, Join(sep, items[1..]), items[0]);
    } else {
      JoinContainsItem(sep, items[1..], i - 1);
      ContainsLeft(items[0] + sep, Join(sep, items[1..]), items[i]);
    }
  }

  /** What occurs in the prompt up to its numbered block occurs in the prompt. */
  lemma PromptExtends(content: string, instructions: string, questions: seq<string>, t: string)
    requires Contains("\n" + instructions + QuestionsHeading + Numbered(questions), t)
    ensures Contains(BuildPrompt(content, instructions, questions), t)
  {
    var s3 := "\n" + instructions + QuestionsHeading + Numbered(questions);
    ContainsRight(s3, NoteHeading, t);
    ContainsRight(s3 + NoteHeading, content, t);
    ContainsRight(s3 + NoteHeading + content, FormatHeading, t);
    ContainsRight(s3 + NoteHeading + content + FormatHeading, JsonFence, t);
    ContainsRight(s3 + NoteHeading + content + FormatHeading + JsonFence, TemplateBody, t);
  }

  /**
   * The prompt holds the instructions, every question as the line `"k. q"` (k 1-based), the note
   * and the opening of the JSON output template.
   */
  lemma PromptHasParts(content: string, instructions: string, questions: seq<string>)
    ensures var p := BuildPrompt(content, instructions, questions);
      && Contains(p, instructions) && Contains(p, content) && Contains(p, "```json")
      && forall i :: 0 <= i < |questions| ==> Contains(p, QuestionLine(i + 1, questions[i]))
  {
    var s1 := "\n" + instructions;
    var s2 := s1 + QuestionsHeading;
    var n := Numbered(questions);
    ContainsSelf(instructions);
    ContainsLeft("\n", instructions, instructions);
    ContainsRight(s1, QuestionsHeading, instructions);
    ContainsRight(s2, n, instructions);
    PromptExtends(content, instructions, questions, instructions);
    forall i | 0 <= i < |questions| ensures Contains(BuildPrompt(content, instructions, questions), QuestionLine(i + 1, questions[i])) {
      JoinContainsItem("\n", NumberedLines(questions), i);
      ContainsLeft(s2, n, QuestionLine(i + 1, questions[i]));
      PromptExtends(content, instructions, questions, QuestionLine(i + 1, questions[i]));
    }
    var s4 := s2 + n + NoteHeading;
    ContainsSelf(content);
    ContainsLeft(s4, content, content);
    ContainsRight(s4 + content, FormatHeading, content);
    ContainsRight(s4 + content + FormatHeading, JsonFence, content);
    ContainsRight(s4 + content + FormatHeading + JsonFence, TemplateBody, content);
    var s6 := s4 + content + FormatHeading;
    ContainsSelf(JsonFence);
    ContainsLeft(s6, JsonFence, JsonFence);
    ContainsRight(s6 + JsonFence, TemplateBody, JsonFence);
  }

  lemma QuestionLineIsOneLine(k: nat, q: string)
    requires '\n' !in q
    ensures '\n' !in QuestionLine(k, q)
  {
    var d := NatToDecimal(k);
    var line := QuestionLine(k, q);
    forall i | 0 <= i < |line| ensures line[i] != '\n' {
      if i < |d| {
        assert line[i] == d[i] && IsDigit(d[i]);
      } else if i < |d| + 2 {
        assert line[i] == ". "[i - |d|];
      } else {
        assert line[i] == q[i - |d| - 2];
      }
    }
  }

  /** When no question spans lines, the numbered block splits back into the numbered lines. */
  lemma NumberedBlockLines(questions: seq<string>)
    requires questions != []
    requires forall i :: 0 <= i < |questions| ==> '\n' !in questions[i]
    ensures SplitOnChar(Numbered(questions), '\n') == NumberedLines(questions)
  {
    var lines := NumberedLines(questions);
    forall k | 0 <= k < |lines| ensures '\n' !in lines[k] {
      QuestionLineIsOneLine(k + 1, questions[k]);
    }
    SplitJoin(lines, '\n');
  }

  // ---------------------------------------------------------------------------------------------
  // Retry delay

  /** The argument of `parse_retry_delay`: `None`, a string, or a number. */
  datatype DelayArg = NoDelay | DelayText(text: string) | DelayNumber(value: real)

  const DefaultRetryDelay: real := 10.0

  function Pow10(k: nat): (r: nat)
    ensures r >= 1
  {
    if k == 0 then 1 else 10 * Pow10(k - 1)
  }

  /** The value of the digits after a decimal point. */
  function FractionValue(frac: string): real
    requires AllDigits(frac)
  {
    DigitsValue(frac) as real / Pow10(|frac|) as real
  }

  /** `float()` on an unsigned plain decimal: digits, optionally a point and digits, some digit. */
  function ParseUnsigned(s: string): Option<real> {
    var whole := LeadingDigits(s);
    UnsignedParts(whole, s[|whole|..])
  }

  /** The value of a numeral split into its leading digits and what follows them. */
  function UnsignedParts(whole: string, rest: string): Option<real>
    requires AllDigits(whole)
  {
    if rest == [] then
      if whole == [] then None else Some(DigitsValue(whole) as real)
    else if rest[0] == '.' && AllDigits(rest[1..]) && (whole != [] || rest[1..] != []) then
      Some(DigitsValue(whole) as real + FractionValue(rest[1..]))
    else None
  }

  /** `float()` on a string, for plain decimal numerals with an optional sign and padding. */
  function ParseFloat(s: string): Option<real> {
    var t := Trim(s);
    if t != [] && t[0] == '-' then
      match ParseUnsigned(t[1..])
      case None => None
      case Some(v) => Some(-v)
    else if t != [] && t[0] == '+' then ParseUnsigned(t[1..])
    else ParseUnsigned(t)
  }

  /** `parse_retry_delay`. */
  function ParseRetryDelay(arg: DelayArg): (r: real)
    ensures arg == NoDelay || arg == DelayText("") || arg == DelayNumber(0.0) ==> r == DefaultRetryDelay
    ensures arg.DelayNumber? && arg.value != 0.0 ==> r == arg.value
    ensures arg.DelayText? && arg.text != [] ==> r == ParseFloat(RemoveChar(arg.text, 's')).GetOr(DefaultRetryDelay)
  {
    match arg
    case NoDelay => DefaultRetryDelay
    case DelayNumber(v) => if v == 0.0 then DefaultRetryDelay else v
    case DelayText(s) =>
      if s == [] then DefaultRetryDelay
      else if 's' in s then ParseFloat(RemoveChar(s, 's')).GetOr(DefaultRetryDelay)
      else
        RemoveCharAbsent(s, 's');
        ParseFloat(s).GetOr(DefaultRetryDelay)
  }

  lemma DigitsAreTrimmed(d: string)
    requires d != [] && AllDigits(d)
    ensures IsTrimmed(d) && !IsSpace(d[0]) && d[0] != '-' && d[0] != '+' && 's' !in d && '.' !in d
  {
    assert IsDigit(d[0]) && IsDigit(d[|d| - 1]);
    forall i | 0 <= i < |d| ensures d[i] != 's' && d[i] != '.' {
      assert IsDigit(d[i]);
    }
  }

  lemma ParseUnsignedWhole(d: string)
    requires d != [] && AllDigits(d)
    ensures ParseUnsigned(d) == Some(DigitsValue(d) as real)
  {
    LeadingDigitsOf(d, []);
    assert d + [] == d;
  }

  lemma ParseUnsignedFraction(d: string, frac: string)
    requires d != [] && AllDigits(d) && AllDigits(frac)
    ensures ParseUnsigned(d + "." + frac) == Some(DigitsValue(d) as real + FractionValue(frac))
  {
    var x := d + "." + frac;
    var rest := "." + frac;
    assert x == d + rest;
    LeadingDigitsOf(d, rest);
    assert x[|d|..] == rest;
    assert ParseUnsigned(x) == UnsignedParts(d, rest);
    PointPart(d, frac);
  }

  lemma PointPart(d: string, frac: string)
    requires d != [] && AllDigits(d) && AllDigits(frac)
    ensures UnsignedParts(d, "." + frac) == Some(DigitsValue(d) as real + FractionValue(frac))
  {
    assert ("." + frac)[1..] == frac;
  }

  lemma ParseFloatUnsigned(x: string)
    requires x != [] && IsTrimmed(x) && x[0] != '-' && x[0] != '+'
    ensures ParseFloat(x) == ParseUnsigned(x)
  {
    TrimOfPadded([], x, []);
    assert [] + x + [] == x;
  }

  /** A rendered whole number reads back as its value. */
  lemma WholeParses(n: nat)
    ensures ParseFloat(NatToDecimal(n)) == Some(n as real)
  {
    var d := NatToDecimal(n);
    DecimalRoundTrip(n);
    DigitsAreTrimmed(d);
    ParseFloatUnsigned(d);
    ParseUnsignedWhole(d);
  }

  /** A rendered whole number, a point and a run of digits read back as their value. */
  lemma FractionParses(n: nat, frac: string)
    requires AllDigits(frac)
    ensures ParseFloat(NatToDecimal(n) + "." + frac) == Some(n as real + FractionValue(frac))
  {
    var d := NatToDecimal(n);
    var x := d + "." + frac;
    PointNumeralTrimmed(d, frac);
    ParseFloatUnsigned(x);
    ParseUnsignedFraction(d, frac);
    DecimalRoundTrip(n);
  }

  /** Digits, a point and digits form a trimmed, unsigned numeral. */
  lemma PointNumeralTrimmed(d: string, frac: string)
    requires d != [] && AllDigits(d) && AllDigits(frac)
    ensures var x := d + "." + frac; x != [] && IsTrimmed(x) && x[0] != '-' && x[0] != '+'
  {
    var x := d + "." + frac;
    assert x[0] == d[0] && IsDigit(d[0]);
    if frac == [] {
      assert x[|x| - 1] == '.';
    } else {
      assert x[|x| - 1] == frac[|frac| - 1] && IsDigit(frac[|frac| - 1]);
    }
  }

  lemma RemoveTrailingS(x: string)
    requires 's' !in x
    ensures 's' in x + "s" && RemoveChar(x + "s", 's') == x
  {
    assert (x + "s")[|x|] == 's';
    RemoveCharAppend(x, "s", 's');
    RemoveCharAbsent(x, 's');
    assert RemoveChar("s", 's') == [];
    assert x + [] == x;
  }

  /** `"<n>s"` gives `n` seconds: the unit letter is removed before parsing. */
  lemma RetryDelayWholeSeconds(n: nat)
    ensures ParseRetryDelay(DelayText(NatToDecimal(n) + "s")) == n as real
  {
    DigitsAreTrimmed(NatToDecimal(n));
    RemoveTrailingS(NatToDecimal(n));
    WholeParses(n);
  }

  /** `"<n>.<frac>s"` gives its fractional number of seconds. */
  lemma RetryDelayFractionalSeconds(n: nat, frac: string)
    requires AllDigits(frac)
    ensures ParseRetryDelay(DelayText(NatToDecimal(n) + "." + frac + "s")) == n as real + FractionValue(frac)
  {
    var d := NatToDecimal(n);
    var x := d + "." + frac;
    DigitsAreTrimmed(d);
    assert 's' !in x by {
      forall i | 0 <= i < |x| ensures x[i] != 's' {
        if i < |d| {
          assert x[i] == d[i];
        } else if i > |d| {
          assert x[i] == frac[i - |d| - 1] && IsDigit(frac[i - |d| - 1]);
        }
      }
    }
    RemoveTrailingS(x);
    FractionParses(n, frac);
  }

  /** `"5s"` is five seconds. */
  lemma RetryDelayFiveSeconds()
    ensures ParseRetryDelay(DelayText("5s")) == 5.0
  {
    assert NatToDecimal(5) == "5";
    RetryDelayWholeSeconds(5);
  }

  /** `"2.5s"` is two and a half seconds. */
  lemma RetryDelayTwoAndAHalfSeconds()
    ensures ParseRetryDelay(DelayText("2.5s")) == 2.5
  {
    assert NatToDecimal(2) == "2";
    assert "2" + "." + "5" + "s" == "2.5s";
    assert "5"[..0] == [];
    assert DigitsValue("5") == 5;
    assert Pow10(1) == 10;
    RetryDelayFractionalSeconds(2, "5");
  }

  /** A string without a decimal digit. */
  predicate NoDigit(s: string) {
    forall c :: c in s ==> !IsDigit(c)
  }

  /** A numeral needs a digit: without one `ParseUnsigned` fails. */
  lemma NoDigitUnsigned(s: string)
    requires NoDigit(s)
    ensures ParseUnsigned(s).None?
  {
    if s != [] {
      assert s[0] in s;
    }
    if |s| > 1 {
      assert s[1] in s && s[1..][0] == s[1];
    }
  }

  /** Without a digit `float()` fails, whatever the sign and padding. */
  lemma NoDigitFloat(s: string)
    requires NoDigit(s)
    ensures ParseFloat(s).None?
  {
    var t := Trim(s);
    TrimKeeps(s);
    assert NoDigit(t);
    NoDigitUnsigned(t);
    if t != [] {
      assert NoDigit(t[1..]) by {
        forall c | c in t[1..] ensures !IsDigit(c) {
          assert c in t;
        }
      }
      NoDigitUnsigned(t[1..]);
    }
  }

  /** A text with no digit, after its `s`s are removed, falls back to the default. */
  lemma UnparsableDelayDefaults(s: string)
    requires s != [] && forall i :: 0 <= i < |s| ==> !IsDigit(s[i])
    ensures ParseRetryDelay(DelayText(s)) == DefaultRetryDelay
  {
    var t := RemoveChar(s, 's');
    assert NoDigit(t) by {
      RemoveCharKeeps(s, 's');
      forall c | c in t ensures !IsDigit(c) {
        var i :| 0 <= i < |t| && t[i] == c;
        var j :| 0 <= j < |s| && s[j] == c;
      }
    }
    NoDigitFloat(t);
  }

  // ---------------------------------------------------------------------------------------------
  // The reply

  /** The first fence step: a leading ```` ```json ```` is removed and the rest trimmed. */
  function DropOpeningFence(t: string): string {
    if StartsWith(t, "```json") then Trim(t[7..]) else t
  }

  /** The second fence step: a trailing ```` ``` ```` is removed and the rest trimmed. */
  function DropClosingFence(t: string): string {
    if EndsWith(t, "```") then Trim(t[..|t| - 3]) else t
  }

  /** The reply text with surrounding whitespace, a leading ```` ```json ```` and a trailing ```` ``` ```` removed. */
  function StripFences(text: string): (r: string)
    ensures IsTrimmed(r)
  {
    DropClosingFence(DropOpeningFence(Trim(text)))
  }

  lemma TrimFenced(ws1: string, body: string, ws2: string)
    requires AllSpace(ws1) && AllSpace(ws2)
    ensures Trim(ws1 + "```json" + body + "```" + ws2) == "```json" + body + "```"
  {
    TrimOfPaddedParts(ws1, "```json", body, "```", ws2);
  }

  lemma TrimBeforeClosingFence(body: string)
    ensures Trim(body + "```") == TrimStart(body) + "```"
  {
    TrimStartAppend(body, "```");
    var s := TrimStart(body) + "```";
    assert s[|s| - 1] == '`';
  }

  lemma OpeningFenceDropped(body: string)
    ensures DropOpeningFence("```json" + body + "```") == TrimStart(body) + "```"
  {
    var t0 := "```json" + body + "```";
    assert t0[..7] == "```json";
    assert t0[7..] == body + "```";
    TrimBeforeClosingFence(body);
  }

  lemma ClosingFenceDropped(body: string)
    ensures DropClosingFence(TrimStart(body) + "```") == Trim(body)
  {
    var t1 := TrimStart(body) + "```";
    assert t1[|t1| - 3..] == "```";
    assert t1[..|t1| - 3] == TrimStart(body);
    TrimAfterTrimStart(body);
  }

  /** A fenced reply, with any padding, gives the trimmed text between the fences. */
  lemma FencedReplyStripped(ws1: string, body: string, ws2: string)
    requires AllSpace(ws1) && AllSpace(ws2)
    ensures StripFences(ws1 + "```json" + body + "```" + ws2) == Trim(body)
  {
    TrimFenced(ws1, body, ws2);
    OpeningFenceDropped(body);
    ClosingFenceDropped(body);
  }

  /** A reply without fences is only trimmed. */
  lemma UnfencedReplyTrimmed(ws1: string, x: string, ws2: string)
    requires AllSpace(ws1) && AllSpace(ws2) && IsTrimmed(x)
    requires !StartsWith(x, "```json") && !EndsWith(x, "```")
    ensures StripFences(ws1 + x + ws2) == x
  {
    TrimOfPadded(ws1, x, ws2);
  }

  /** One entry of the error details of a client error. */
  datatype Detail = Detail(kind: Option<string>, retryDelay: Option<string>)

  predicate IsRetryInfo(d: Detail) {
    d.kind.Some? && Contains(d.kind.value, "RetryInfo")
  }

  /** The delay named by the last RetryInfo detail, or `"unknown"`. */
  function LastRetryDelay(details: seq<Detail>): string {
    if details == [] then "unknown"
    else if IsRetryInfo(details[|details| - 1]) then details[|details| - 1].retryDelay.GetOr("unknown")
    else LastRetryDelay(details[..|details| - 1])
  }

  /** The last RetryInfo detail decides the delay; with none it is `"unknown"`. */
  lemma {:induction false} LastRetryInfoWins(details: seq<Detail>)
    ensures (forall i :: 0 <= i < |details| ==> !IsRetryInfo(details[i])) ==> LastRetryDelay(details) == "unknown"
    ensures forall i :: 0 <= i < |details| && IsRetryInfo(details[i]) && (forall j :: i < j < |details| ==> !IsRetryInfo(details[j])) ==>
      LastRetryDelay(details) == details[i].retryDelay.GetOr("unknown")
  {
    if details != [] {
      var n := |details| - 1;
      var init := details[..n];
      LastRetryInfoWins(init);
      assert forall i :: 0 <= i < |init| ==> init[i] == details[i];
      if !IsRetryInfo(details[n]) {
        forall i | 0 <= i < |details| && IsRetryInfo(details[i]) && (forall j :: i < j < |details| ==> !IsRetryInfo(details[j]))
          ensures LastRetryDelay(details) == details[i].retryDelay.GetOr("unknown")
        {
          assert forall j :: i < j < |init| ==> !IsRetryInfo(init[j]);
        }
      }
    }
  }

  /** A client error is a quota error when its text names both the status and the reason. */
  predicate IsQuotaError(message: string) {
    Contains(message, "429") && Contains(message, "RESOURCE_EXHAUSTED")
  }

  /** A JSON value as far as the records need it; anything else is kept as its text. */
  datatype Value = Text(s: string) | Number(n: int) | Other(repr: string)

  type Record = map<string, Value>

  /** What `json.loads` produced: an object, or some other JSON value. */
  datatype Json = JsonObject(fields: Record) | JsonOther

  /**
   * How the model call ended: an answer, a `ClientError` (which is caught), or any other exception
   * from `generate_content`, such as a `ServerError`, which escapes the call.
   */
  datatype Reply = Answered(text: string) | Rejected(message: string, details: seq<Detail>) | Failed(message: string)

  const VersionKey := "questions_version"
  const ModelKey := "model"
  const DateKey := "date_executed"

  /**
   * Stands for the `TypeError` that `result["questions_version"] = …` raises when the reply parses to
   * JSON that is not an object; its real text depends on the value's type.
   */
  const UpdateTypeError := "TypeError: the parsed reply does not support item assignment"
  const QuotaMessagePrefix := "Gemini API quota exceeded. Suggested retry delay: "

  predicate IsMetaKey(k: string) {
    k == VersionKey || k == ModelKey || k == DateKey
  }

  /** The record carries the set's label, the model and the execution time. */
  predicate Annotated(rec: Record, setLabel: string, now: string) {
    && VersionKey in rec && rec[VersionKey] == Text(setLabel)
    && ModelKey in rec && rec[ModelKey] == Text(ModelName)
    && DateKey in rec && rec[DateKey] == Text(now)
  }

  /** `rec` with the three annotation keys set, every other key as it was. */
  function Annotate(rec: Record, setLabel: string, now: string): (r: Record)
    ensures Annotated(r, setLabel, now)
    ensures forall k :: !IsMetaKey(k) ==> (k in r <==> k in rec) && (k in rec ==> r[k] == rec[k])
    ensures r.Keys == rec.Keys + {VersionKey, ModelKey, DateKey}
  {
    rec[VersionKey := Text(setLabel)][ModelKey := Text(ModelName)][DateKey := Text(now)]
  }

  /** The record for a quota error: its marker, the suggested delay and the status 429. */
  function QuotaRecord(details: seq<Detail>): Record {
    map["error" := Text("API quota exceeded"), "message" := Text(QuotaMessagePrefix + LastRetryDelay(details)),
        "status_code" := Number(429)]
  }

  /** The record for any other client error: its marker and the error's text. */
  function ApiErrorRecord(message: string): Record {
    map["error" := Text("API error"), "message" := Text(message)]
  }

  /** The record for a reply that does not parse: the parser's message and the unstripped reply. */
  function ParseFailureRecord(error: string, raw: string): Record {
    map["error" := Text("Failed to parse Gemini response: " + error), "raw" := Text(raw)]
  }

  /** What `call_gemini_api` returns once the prompt is built, or the exception it raises. */
  function CallRecord(setLabel: string, reply: Reply, parse: string -> Result<Json, string>, now: string): (r: Result<Record, string>)
    ensures reply.Rejected? ==> r.Success? && Annotated(r.value, setLabel, now)
  {
    if reply.Failed? then Failure(reply.message)
    else if reply.Rejected? then
      Success(Annotate(if IsQuotaError(reply.message) then QuotaRecord(reply.details) else ApiErrorRecord(reply.message),
                       setLabel, now))
    else AnswerRecord(setLabel, reply.text, parse, now)
  }

  /** The same for a reply the model returned: parsed once its fences are stripped. */
  function AnswerRecord(setLabel: string, text: string, parse: string -> Result<Json, string>, now: string): Result<Record, string> {
    match parse(StripFences(text))
    case Success(JsonObject(fields)) => Success(Annotate(fields, setLabel, now))
    case Success(JsonOther) => Failure(UpdateTypeError)
    case Failure(e) => Success(Annotate(ParseFailureRecord(e, text), setLabel, now))
  }

  /**
   * Every record returned carries the set's label, the model and the date. The call raises exactly
   * when `generate_content` raises something other than a `ClientError`, which escapes with its own
   * message, or when the reply parses to something other than an object.
   */
  lemma CallRecordAnnotated(setLabel: string, reply: Reply, parse: string -> Result<Json, string>, now: string)
    ensures var r := CallRecord(setLabel, reply, parse, now);
      && (r.Success? ==> Annotated(r.value, setLabel, now))
      && (r.Failure? <==> reply.Failed? || (reply.Answered? && parse(StripFences(reply.text)) == Success(JsonOther)))
      && (reply.Failed? ==> r == Failure(reply.message))
      && (r.Failure? && reply.Answered? ==> r.error == UpdateTypeError)
  {
    var r := CallRecord(setLabel, reply, parse, now);
    if reply.Failed? {
      assert r == Failure(reply.message);
    } else if reply.Rejected? {
      var base := if IsQuotaError(reply.message) then QuotaRecord(reply.details) else ApiErrorRecord(reply.message);
      assert r == Success(Annotate(base, setLabel, now));
    } else {
      match parse(StripFences(reply.text))
      case Success(JsonObject(fields)) =>
        assert r == Success(Annotate(fields, setLabel, now));
      case Success(JsonOther) =>
        assert r == Failure(UpdateTypeError);
      case Failure(e) =>
        assert r == Success(Annotate(ParseFailureRecord(e, reply.text), setLabel, now));
    }
  }

  /** The keys the call writes itself are distinct from the three annotation keys. */
  lemma RecordKeysNotMeta()
    ensures !IsMetaKey("error") && !IsMetaKey("message") && !IsMetaKey("status_code") && !IsMetaKey("raw")
  {
    assert "error"[0] != VersionKey[0] && "error"[0] != ModelKey[0] && "error"[0] != DateKey[0];
    assert "message"[0] != VersionKey[0] && "message"[1] != ModelKey[1] && "message"[0] != DateKey[0];
    assert "status_code"[0] != VersionKey[0] && "status_code"[0] != ModelKey[0] && "status_code"[0] != DateKey[0];
    assert "raw"[0] != VersionKey[0] && "raw"[0] != ModelKey[0] && "raw"[0] != DateKey[0];
  }

  /**
   * A client error is a quota error exactly when its text holds both `429` and `RESOURCE_EXHAUSTED`;
   * it then reports status 429 and the delay of the last RetryInfo detail, and any other client
   * error reports `"API error"` with the error's text. Neither is retried.
   */
  lemma ClientErrorsClassified(setLabel: string, message: string, details: seq<Detail>,
                               parse: string -> Result<Json, string>, now: string)
    ensures var r := CallRecord(setLabel, Rejected(message, details), parse, now);
      && r.Success?
      && (IsQuotaError(message) ==>
            && r.value["error"] == Text("API quota exceeded") && r.value["status_code"] == Number(429)
            && r.value["message"] == Text(QuotaMessagePrefix + LastRetryDelay(details)))
      && (!IsQuotaError(message) ==>
            r.value["error"] == Text("API error") && r.value["message"] == Text(message) && "status_code" !in r.value)
  {
    RecordKeysNotMeta();
    if IsQuotaError(message) {
      assert CallRecord(setLabel, Rejected(message, details), parse, now) == Success(Annotate(QuotaRecord(details), setLabel, now));
    } else {
      assert CallRecord(setLabel, Rejected(message, details), parse, now) == Success(Annotate(ApiErrorRecord(message), setLabel, now));
    }
  }

  /**
   * A reply that parses to an object keeps every key the model returned, except the three
   * annotation keys, which are overwritten.
   */
  lemma ParsedObjectKept(setLabel: string, text: string, parse: string -> Result<Json, string>, now: string, fields: Record)
    requires parse(StripFences(text)) == Success(JsonObject(fields))
    ensures var r := CallRecord(setLabel, Answered(text), parse, now);
      r.Success? && forall k :: k in fields && !IsMetaKey(k) ==> k in r.value && r.value[k] == fields[k]
  {
    var a := Annotate(fields, setLabel, now);
    assert CallRecord(setLabel, Answered(text), parse, now) == AnswerRecord(setLabel, text, parse, now);
    assert AnswerRecord(setLabel, text, parse, now) == Success(a);
    assert forall k :: k in fields && !IsMetaKey(k) ==> k in a && a[k] == fields[k];
  }

  /**
   * A reply that does not parse is recorded with the parser's message and the reply as received,
   * before any stripping.
   */
  lemma UnparsableReplyRecorded(setLabel: string, text: string, parse: string -> Result<Json, string>, now: string, e: string)
    requires parse(StripFences(text)) == Failure(e)
    ensures var r := CallRecord(setLabel, Answered(text), parse, now);
      && r.Success? && "raw" in r.value && "error" in r.value
      && r.value["raw"] == Text(text) && r.value["error"] == Text("Failed to parse Gemini response: " + e)
  {
    var rec := ParseFailureRecord(e, text);
    assert CallRecord(setLabel, Answered(text), parse, now) == AnswerRecord(setLabel, text, parse, now);
    assert AnswerRecord(setLabel, text, parse, now) == Success(Annotate(rec, setLabel, now));
    ParseFailureRecordFields(e, text);
  }

  lemma ParseFailureRecordFields(e: string, raw: string)
    ensures var rec := ParseFailureRecord(e, raw);
      && "raw" in rec && !IsMetaKey("raw") && rec["raw"] == Text(raw)
      && "error" in rec && !IsMetaKey("error") && rec["error"] == Text("Failed to parse Gemini response: " + e)
  {
    RecordKeysNotMeta();
  }

  /** The `for detail in details` loop: the delay of the last RetryInfo detail, or `"unknown"`. */
  method RetryDelayOf(details: seq<Detail>) returns (retryDelay: string)
    ensures retryDelay == LastRetryDelay(details)
  {
    retryDelay := "unknown";
    var i := 0;
    while i < |details|
      invariant 0 <= i <= |details|
      invariant retryDelay == LastRetryDelay(details[..i])
    {
      assert details[..i + 1][..i] == details[..i];
      if details[i].kind.Some? && Contains(details[i].kind.value, "RetryInfo") {
        retryDelay := details[i].retryDelay.GetOr("unknown");
      }
      i := i + 1;
    }
    assert details[..|details|] == details;
  }

  /** The reassignments of `text` in `call_gemini_api`: trim, drop the opening fence, drop the closing fence. */
  method StripReply(reply: string) returns (text: string)
    ensures text == StripFences(reply)
  {
    text := Trim(reply);
    if StartsWith(text, "```json") {
      text := Trim(text[7..]);
    }
    assert text == DropOpeningFence(Trim(reply));
    if EndsWith(text, "```") {
      text := Trim(text[..|text| - 3]);
    }
  }

  /**
   * The handling in `call_gemini_api` after the prompt is built: let an exception other than a
   * client error escape, classify a client error, or strip and parse the reply, then set the three
   * annotation keys in place. Setting a key on a parsed value that is not an object raises.
   */
  method CallGemini(setLabel: string, reply: Reply, parse: string -> Result<Json, string>, now: string)
    returns (r: Result<Record, string>)
    ensures r == CallRecord(setLabel, reply, parse, now)
  {
    if reply.Failed? {
      return Failure(reply.message);
    }
    var result: Record;
    if reply.Rejected? {
      var message := reply.message;
      if Contains(message, "429") && Contains(message, "RESOURCE_EXHAUSTED") {
        var retryDelay := RetryDelayOf(reply.details);
        result := map["error" := Text("API quota exceeded"), "message" := Text(QuotaMessagePrefix + retryDelay),
                      "status_code" := Number(429)];
      } else {
        result := map["error" := Text("API error"), "message" := Text(message)];
      }
    } else {
      var text := StripReply(reply.text);
      match parse(text)
      case Success(JsonObject(fields)) =>
        result := fields;
      case Success(JsonOther) =>
        return Failure(UpdateTypeError);
      case Failure(e) =>
        result := map["error" := Text("Failed to parse Gemini response: " + e), "raw" := Text(reply.text)];
    }
    result := result[VersionKey := Text(setLabel)];
    result := result[ModelKey := Text(ModelName)];
    result := result[DateKey := Text(now)];
    return Success(result);
  }
}
