/**
 * The enrichment step of `cli/notion_cli.py`: choosing the latest question set, running the model
 * over every note with text unless its output file already records this set and model, and
 * reading the output files back by parsing their names.
 *
 * The questions directory and the outputs directory are given as values (a list of names; a map
 * from output name to what `json.load` made of it). One model call is a function from the note's
 * content to the record `call_gemini_api` returns, or to the exception it raises.
 */
module Analysis {
  import opened Wrappers
  import opened Text
  import opened Gemini

  // ---------------------------------------------------------------------------------------------
  // Latest question set

  /**
   * `re.match(r'questions_v(\d+)\.json', fname)`: the number of a question file. The match is
   * anchored at the start only, so anything may follow `.json`.
   */
  function QuestionsFileVersion(fname: string): (r: Option<nat>)
    ensures r.Some? ==> StartsWith(fname, "questions_v") && |fname| >= 17 && IsDigit(fname[11])
  {
    if !StartsWith(fname, "questions_v") then None
    else
      var rest := fname[11..];
      var d := LeadingDigits(rest);
      if d != [] && StartsWith(rest[|d|..], ".json") then
        assert rest[0] == d[0];
        Some(DigitsValue(d))
      else None
  }

  /** Every name made of a question file name and any tail matches, with the file's number. */
  lemma QuestionsFileNameMatches(d: string, tail: string)
    requires d != [] && AllDigits(d)
    ensures QuestionsFileVersion(QuestionsFileName(d) + tail) == Some(DigitsValue(d))
  {
    var fname := QuestionsFileName(d) + tail;
    assert fname == "questions_v" + (d + (".json" + tail));
    assert fname[..11] == "questions_v";
    var rest := fname[11..];
    assert rest == d + (".json" + tail);
    LeadingDigitsOf(d, ".json" + tail);
    assert rest[|d|..] == ".json" + tail;
    assert (".json" + tail)[..5] == ".json";
  }

  /** A matching name starts with the question file name of its digits. */
  lemma MatchedNameIsQuestionsFile(fname: string)
    requires QuestionsFileVersion(fname).Some?
    ensures exists d :: d != [] && AllDigits(d) && StartsWith(fname, QuestionsFileName(d))
                        && QuestionsFileVersion(fname) == Some(DigitsValue(d))
  {
    var rest := fname[11..];
    var d := LeadingDigits(rest);
    assert fname[..11 + |d| + 5] == QuestionsFileName(d) by {
      assert fname[..11] == "questions_v";
      assert fname[11..11 + |d|] == d;
      assert fname[11 + |d|..11 + |d| + 5] == rest[|d|..][..5];
    }
  }

  /** The numbers of the question files, in listing order. */
  function Versions(files: seq<string>): (vs: seq<nat>)
    ensures |vs| <= |files|
  {
    if files == [] then []
    else
      var last := QuestionsFileVersion(files[|files| - 1]);
      Versions(files[..|files| - 1]) + (if last.Some? then [last.value] else [])
  }

  /** The numbers of the question files are exactly the numbers some file name carries. */
  lemma VersionsMembership(files: seq<string>)
    ensures forall v :: v in Versions(files) <==> exists i :: 0 <= i < |files| && QuestionsFileVersion(files[i]) == Some(v)
  {
    forall v ensures v in Versions(files) <==> exists i :: 0 <= i < |files| && QuestionsFileVersion(files[i]) == Some(v) {
      if v in Versions(files) {
        VersionFromFile(files, v);
      }
      if exists i :: 0 <= i < |files| && QuestionsFileVersion(files[i]) == Some(v) {
        var i :| 0 <= i < |files| && QuestionsFileVersion(files[i]) == Some(v);
        VersionListed(files, i);
      }
    }
  }

  lemma {:induction false} VersionListed(files: seq<string>, i: nat)
    requires i < |files| && QuestionsFileVersion(files[i]).Some?
    ensures QuestionsFileVersion(files[i]).value in Versions(files)
  {
    var init := files[..|files| - 1];
    var last := QuestionsFileVersion(files[|files| - 1]);
    assert Versions(files) == Versions(init) + (if last.Some? then [last.value] else []);
    if i < |init| {
      assert files[i] == init[i];
      VersionListed(init, i);
    }
  }

  lemma {:induction false} VersionFromFile(files: seq<string>, v: nat)
    requires v in Versions(files)
    ensures exists i :: 0 <= i < |files| && QuestionsFileVersion(files[i]) == Some(v)
  {
    var init := files[..|files| - 1];
    var last := QuestionsFileVersion(files[|files| - 1]);
    assert Versions(files) == Versions(init) + (if last.Some? then [last.value] else []);
    if v in Versions(init) {
      VersionFromFile(init, v);
      var i :| 0 <= i < |init| && QuestionsFileVersion(init[i]) == Some(v);
      assert files[i] == init[i];
    } else {
      assert QuestionsFileVersion(files[|files| - 1]) == Some(v);
    }
  }

  function MaxOf(vs: seq<nat>): (m: nat)
    requires vs != []
    ensures m in vs && forall v :: v in vs ==> v <= m
  {
    if |vs| == 1 then vs[0]
    else
      var m := MaxOf(vs[1..]);
      assert forall v :: v in vs ==> v == vs[0] || v in vs[1..];
      if vs[0] >= m then vs[0] else m
  }

  /** `analyze_notes`' choice: the highest question file number, or `"1"` when there is none. */
  function LatestVersion(files: seq<string>): string {
    var vs := Versions(files);
    if vs == [] then "1" else NatToDecimal(MaxOf(vs))
  }

  /**
   * The scan of the questions directory: the highest number among the matching names, rendered
   * as `str(max(versions))`, or `"1"` when no name matches.
   */
  method LatestQuestionsVersion(files: seq<string>) returns (version: string)
    ensures version == LatestVersion(files)
    ensures (forall i :: 0 <= i < |files| ==> QuestionsFileVersion(files[i]).None?) ==> version == "1"
    ensures forall i :: 0 <= i < |files| && QuestionsFileVersion(files[i]).Some? ==>
      exists k :: 0 <= k < |files| && QuestionsFileVersion(files[k]).Some?
        && version == NatToDecimal(QuestionsFileVersion(files[k]).value)
        && QuestionsFileVersion(files[i]).value <= QuestionsFileVersion(files[k]).value
  {
    var versions: seq<nat> := [];
    var i := 0;
    while i < |files|
      invariant 0 <= i <= |files|
      invariant versions == Versions(files[..i])
    {
      assert files[..i + 1][..i] == files[..i];
      var m := QuestionsFileVersion(files[i]);
      if m.Some? {
        versions := versions + [m.value];
      }
      i := i + 1;
    }
    assert files[..|files|] == files;
    if versions != [] {
      version := NatToDecimal(MaxOf(versions));
    } else {
      version := "1";
    }
    VersionsMembership(files);
    if versions != [] {
      var top := MaxOf(versions);
      assert exists k :: 0 <= k < |files| && QuestionsFileVersion(files[k]) == Some(top);
    }
  }

  /** The chosen version names a file that reads back as the highest number. */
  lemma LatestVersionReadsBack(files: seq<string>)
    requires Versions(files) != []
    ensures QuestionsFileVersion(QuestionsFileName(LatestVersion(files))) == Some(MaxOf(Versions(files)))
  {
    var m := MaxOf(Versions(files));
    DecimalRoundTrip(m);
    QuestionsFileNameMatches(NatToDecimal(m), []);
    assert QuestionsFileName(NatToDecimal(m)) + [] == QuestionsFileName(NatToDecimal(m));
  }

  // ---------------------------------------------------------------------------------------------
  // Notes to analyse

  /** SQLite's `TRIM(x) = ''`: nothing but spaces (TRIM removes spaces only). */
  predicate SqlBlank(s: string) {
    forall i :: 0 <= i < |s| ==> s[i] == ' '
  }

  /** `SELECT id, content FROM pages WHERE content IS NOT NULL AND TRIM(content) != ""`, in table order. */
  function SelectNotes(rows: seq<(string, Option<string>)>): (notes: seq<(string, string)>)
    ensures |notes| <= |rows|
  {
    if rows == [] then []
    else
      var last := rows[|rows| - 1];
      SelectNotes(rows[..|rows| - 1])
        + (if last.1.Some? && !SqlBlank(last.1.value) then [(last.0, last.1.value)] else [])
  }

  /** A note is selected exactly when its row has content that is not all spaces. */
  lemma {:induction false} SelectNotesMembership(rows: seq<(string, Option<string>)>)
    ensures forall id, c :: (id, c) in SelectNotes(rows) <==> (id, Some(c)) in rows && !SqlBlank(c)
  {
    if rows != [] {
      var init := rows[..|rows| - 1];
      SelectNotesMembership(init);
      assert rows == init + [rows[|rows| - 1]];
      forall id, c ensures (id, c) in SelectNotes(rows) <==> (id, Some(c)) in rows && !SqlBlank(c) {
        if (id, Some(c)) in rows && (id, Some(c)) != rows[|rows| - 1] {
          var k :| 0 <= k < |rows| && rows[k] == (id, Some(c));
          assert init[k] == rows[k];
        }
      }
    }
  }

  // ---------------------------------------------------------------------------------------------
  // Output files and the skip rule

  /** What reading an output file gives: a JSON object, or an exception (bad JSON, not an object). */
  datatype OutputFile = Unreadable | Existing(fields: Record)

  /** The outputs directory: the files present, by name. */
  type Outputs = map<string, OutputFile>

  function OutputFileName(id: string, version: string, model: string): string {
    "gemini_" + id + "_v" + version + "_" + model + ".json"
  }

  function Get(rec: Record, key: string): Option<Value> {
    if key in rec then Some(rec[key]) else None
  }

  function IntToDecimal(n: int): string {
    if n >= 0 then NatToDecimal(n) else "-" + NatToDecimal(-n)
  }

  /** Python's `str()` of a value `dict.get` returned. */
  function PyStr(v: Option<Value>): string {
    match v
    case None => "None"
    case Some(Text(s)) => s
    case Some(Number(n)) => IntToDecimal(n)
    case Some(Other(repr)) => repr
  }

  /** The saved record names this question set and the model. */
  predicate RecordsRun(rec: Record, version: string) {
    PyStr(Get(rec, VersionKey)) == "v" + version && Get(rec, ModelKey) == Some(Text(ModelName))
  }

  /**
   * A note is passed over when its output file exists and either records this set and model or
   * cannot be read (the exception is caught and the note skipped).
   */
  predicate AlreadyProcessed(outputs: Outputs, id: string, version: string) {
    var path := OutputFileName(id, version, ModelName);
    path in outputs && (outputs[path].Unreadable? || RecordsRun(outputs[path].fields, version))
  }

  /** The notes a run called the model for, the outputs afterwards, and the exception that ended it. */
  datatype Run = Run(called: seq<string>, outputs: Outputs, raised: Option<string>)

  /** The `for note_id, content in notes` loop of `analyze_notes`, on values. */
  function Analyze(notes: seq<(string, string)>, outputs: Outputs, version: string,
                   call: string -> Result<Record, string>): (r: Run)
    ensures |r.called| <= |notes|
    decreases |notes|
  {
    if notes == [] then Run([], outputs, None)
    else
      var id := notes[0].0;
      if AlreadyProcessed(outputs, id, version) then Analyze(notes[1..], outputs, version, call)
      else match call(notes[0].1)
        case Failure(e) => Run([id], outputs, Some(e))
        case Success(rec) =>
          var rest := Analyze(notes[1..], outputs[OutputFileName(id, version, ModelName) := Existing(rec)], version, call);
          Run([id] + rest.called, rest.outputs, rest.raised)
  }

  lemma AnalyzeSkips(notes: seq<(string, string)>, outputs: Outputs, version: string, call: string -> Result<Record, string>)
    requires notes != [] && AlreadyProcessed(outputs, notes[0].0, version)
    ensures Analyze(notes, outputs, version, call) == Analyze(notes[1..], outputs, version, call)
  {
  }

  lemma AnalyzeCalls(notes: seq<(string, string)>, outputs: Outputs, version: string, call: string -> Result<Record, string>)
    requires notes != [] && !AlreadyProcessed(outputs, notes[0].0, version)
    ensures call(notes[0].1).Failure? ==>
      Analyze(notes, outputs, version, call) == Run([notes[0].0], outputs, Some(call(notes[0].1).error))
    ensures call(notes[0].1).Success? ==>
      var rest := Analyze(notes[1..], outputs[OutputFileName(notes[0].0, version, ModelName) := Existing(call(notes[0].1).value)], version, call);
      Analyze(notes, outputs, version, call) == Run([notes[0].0] + rest.called, rest.outputs, rest.raised)
  {
  }

  /** `analyze_notes(questions_version)`: the version asked for, or the latest question set. */
  method AnalyzeNotes(rows: seq<(string, Option<string>)>, outputs0: Outputs, questionsVersion: Option<string>,
                      questionFiles: seq<string>, call: string -> Result<Record, string>)
    returns (called: seq<string>, outputs: Outputs, raised: Option<string>)
    ensures var version := if questionsVersion.Some? then questionsVersion.value else LatestVersion(questionFiles);
      Run(called, outputs, raised) == Analyze(SelectNotes(rows), outputs0, version, call)
  {
    var version: string;
    if questionsVersion.None? {
      version := LatestQuestionsVersion(questionFiles);
    } else {
      version := questionsVersion.value;
    }
    called, outputs, raised := AnalyzeEach(SelectNotes(rows), outputs0, version, call);
  }

  /** The loop over the selected notes. */
  method AnalyzeEach(notes: seq<(string, string)>, outputs0: Outputs, version: string, call: string -> Result<Record, string>)
    returns (called: seq<string>, outputs: Outputs, raised: Option<string>)
    ensures Run(called, outputs, raised) == Analyze(notes, outputs0, version, call)
  {
    ghost var total := Analyze(notes, outputs0, version, call);
    called, outputs, raised := [], outputs0, None;
    var i := 0;
    assert notes[i..] == notes;
    while i < |notes|
      invariant 0 <= i <= |notes|
      invariant raised.None? && Remaining(total, notes[i..], called, outputs, version, call)
    {
      var stop;
      called, outputs, raised, stop := AnalyzeNote(notes[i..], called, outputs, version, call, total);
      if stop {
        return;
      }
      assert notes[i..][1..] == notes[i + 1..];
      i := i + 1;
    }
    assert notes[i..] == [];
    assert called + [] == called;
  }

  /** What is still to come after `called` and `outputs` is the run over `notes`. */
  ghost predicate Remaining(total: Run, notes: seq<(string, string)>, called: seq<string>, outputs: Outputs,
                            version: string, call: string -> Result<Record, string>) {
    var rest := Analyze(notes, outputs, version, call);
    total.called == called + rest.called && total.outputs == rest.outputs && total.raised == rest.raised
  }

  /** The body of that loop, for the first of the notes left: skip it, or call the model for it. */
  method AnalyzeNote(notes: seq<(string, string)>, called: seq<string>, outputs: Outputs, version: string,
                     call: string -> Result<Record, string>, ghost total: Run)
    returns (calledAfter: seq<string>, outputsAfter: Outputs, raised: Option<string>, stop: bool)
    requires notes != [] && Remaining(total, notes, called, outputs, version, call)
    ensures stop ==> Run(calledAfter, outputsAfter, raised) == total
    ensures !stop ==> raised.None? && Remaining(total, notes[1..], calledAfter, outputsAfter, version, call)
  {
    var noteId, content := notes[0].0, notes[0].1;
    if AlreadyProcessed(outputs, noteId, version) {
      AnalyzeSkips(notes, outputs, version, call);
      return called, outputs, None, false;
    }
    AnalyzeCalls(notes, outputs, version, call);
    var result := call(content);
    if result.Failure? {
      return called + [noteId], outputs, Some(result.error), true;
    }
    var next := outputs[OutputFileName(noteId, version, ModelName) := Existing(result.value)];
    ghost var rest := Analyze(notes[1..], next, version, call);
    assert called + ([noteId] + rest.called) == (called + [noteId]) + rest.called;
    return called + [noteId], next, None, false;
  }

  /** Every note the run left processed stays processed: files are only written for the others. */
  lemma {:induction false} ProcessedStays(notes: seq<(string, string)>, outputs: Outputs, version: string,
                                          call: string -> Result<Record, string>, id: string)
    requires AlreadyProcessed(outputs, id, version)
    ensures AlreadyProcessed(Analyze(notes, outputs, version, call).outputs, id, version)
    decreases |notes|
  {
    if notes != [] {
      var x := notes[0].0;
      if !AlreadyProcessed(outputs, x, version) && call(notes[0].1).Success? {
        var o1 := outputs[OutputFileName(x, version, ModelName) := Existing(call(notes[0].1).value)];
        assert OutputFileName(x, version, ModelName) != OutputFileName(id, version, ModelName);
        assert AlreadyProcessed(o1, id, version);
        ProcessedStays(notes[1..], o1, version, call, id);
      } else if AlreadyProcessed(outputs, x, version) {
        ProcessedStays(notes[1..], outputs, version, call, id);
      }
    }
  }

  /** Every note of the list has a processed output file. */
  ghost predicate Settled(outputs: Outputs, notes: seq<(string, string)>, version: string) {
    forall i :: 0 <= i < |notes| ==> AlreadyProcessed(outputs, notes[i].0, version)
  }

  /** Every record a call returns names the question set being run and the model. */
  ghost predicate LabelsMatch(call: string -> Result<Record, string>, version: string) {
    forall c :: call(c).Success? ==> RecordsRun(call(c).value, version)
  }

  /** A run that ends normally, with records labelled for its set, leaves every note processed. */
  lemma {:induction false} AnalyzeSettles(notes: seq<(string, string)>, outputs: Outputs, version: string,
                                          call: string -> Result<Record, string>)
    requires LabelsMatch(call, version)
    requires Analyze(notes, outputs, version, call).raised.None?
    ensures Settled(Analyze(notes, outputs, version, call).outputs, notes, version)
    decreases |notes|
  {
    if notes != [] {
      var x := notes[0].0;
      var o1 := if AlreadyProcessed(outputs, x, version) then outputs
                else outputs[OutputFileName(x, version, ModelName) := Existing(call(notes[0].1).value)];
      assert AlreadyProcessed(o1, x, version);
      assert Analyze(notes, outputs, version, call).outputs == Analyze(notes[1..], o1, version, call).outputs;
      AnalyzeSettles(notes[1..], o1, version, call);
      ProcessedStays(notes[1..], o1, version, call, x);
      forall i | 1 <= i < |notes| ensures AlreadyProcessed(Analyze(notes[1..], o1, version, call).outputs, notes[i].0, version) {
        assert notes[i] == notes[1..][i - 1];
      }
    }
  }

  lemma {:induction false} SettledSkipsAll(notes: seq<(string, string)>, outputs: Outputs, version: string,
                                           call: string -> Result<Record, string>)
    requires Settled(outputs, notes, version)
    ensures Analyze(notes, outputs, version, call) == Run([], outputs, None)
    decreases |notes|
  {
    if notes != [] {
      assert AlreadyProcessed(outputs, notes[0].0, version);
      forall i | 0 <= i < |notes[1..]| ensures AlreadyProcessed(outputs, notes[1..][i].0, version) {
        assert notes[1..][i] == notes[i + 1];
      }
      SettledSkipsAll(notes[1..], outputs, version, call);
    }
  }

  /**
   * Re-running the analysis after a run that ended normally calls the model for no note and
   * writes nothing, provided every record carries this set's label: error records (quota, API
   * error, unparsable reply) included, so they are never retried.
   */
  lemma RerunCallsNothing(notes: seq<(string, string)>, outputs: Outputs, version: string,
                          call: string -> Result<Record, string>)
    requires LabelsMatch(call, version)
    requires Analyze(notes, outputs, version, call).raised.None?
    ensures var after := Analyze(notes, outputs, version, call).outputs;
      Analyze(notes, after, version, call) == Run([], after, None)
  {
    AnalyzeSettles(notes, outputs, version, call);
    SettledSkipsAll(notes, Analyze(notes, outputs, version, call).outputs, version, call);
  }

  /**
   * The calls `analyze_notes` makes are labelled for the set being run when that set's question
   * file has no `version` field: `call_gemini_api` loads the same set and labels every record it
   * returns with `"v"` + the version and the model.
   */
  lemma GeminiCallsMatchLabels(dir: map<string, QuestionsFile>, version: string, call: string -> Result<Record, string>,
                               reply: string -> Reply, parse: string -> Result<Json, string>, now: string -> string)
    requires QuestionsFileName(version) in dir && dir[QuestionsFileName(version)].version.None?
    requires forall c :: call(c) == CallRecord(LoadQuestions(dir, Some(version)).value.2, reply(c), parse, now(c))
    ensures LabelsMatch(call, version)
  {
    var setLabel := LoadQuestions(dir, Some(version)).value.2;
    assert setLabel == "v" + version;
    forall c | call(c).Success? ensures RecordsRun(call(c).value, version) {
      CallRecordAnnotated(setLabel, reply(c), parse, now(c));
    }
  }

  function Ids(notes: seq<(string, string)>): (ids: seq<string>)
    ensures |ids| == |notes| && forall i :: 0 <= i < |notes| ==> ids[i] == notes[i].0
  {
    if notes == [] then [] else [notes[0].0] + Ids(notes[1..])
  }

  /** No note of the list has a processed output file. */
  ghost predicate NoneProcessed(outputs: Outputs, notes: seq<(string, string)>, version: string) {
    forall i :: 0 <= i < |notes| ==> !AlreadyProcessed(outputs, notes[i].0, version)
  }

  /**
   * When the records are labelled differently from `"v" + version` (a question file whose own
   * `version` field is not of that form), nothing is ever recorded as processed: every run calls
   * the model for every note again.
   */
  lemma {:induction false} MislabelledRunsRepeat(notes: seq<(string, string)>, outputs: Outputs, version: string,
                                                 call: string -> Result<Record, string>)
    requires forall c :: call(c).Success? && !RecordsRun(call(c).value, version)
    requires NoneProcessed(outputs, notes, version)
    ensures var r := Analyze(notes, outputs, version, call);
      r.called == Ids(notes) && r.raised.None? && NoneProcessed(r.outputs, notes, version)
    decreases |notes|
  {
    if notes != [] {
      var x := notes[0].0;
      assert !AlreadyProcessed(outputs, x, version);
      var path := OutputFileName(x, version, ModelName);
      var o1 := outputs[path := Existing(call(notes[0].1).value)];
      forall i | 0 <= i < |notes| ensures !AlreadyProcessed(o1, notes[i].0, version) {
        assert !AlreadyProcessed(outputs, notes[i].0, version);
      }
      forall i | 0 <= i < |notes[1..]| ensures !AlreadyProcessed(o1, notes[1..][i].0, version) {
        assert notes[1..][i] == notes[i + 1];
      }
      MislabelledRunsRepeat(notes[1..], o1, version, call);
      var rest := Analyze(notes[1..], o1, version, call);
      assert Ids(notes) == [x] + Ids(notes[1..]);
      forall i | 0 <= i < |notes| ensures !AlreadyProcessed(rest.outputs, notes[i].0, version) {
        if i == 0 {
          MislabelledKeepsUnprocessed(notes[1..], o1, version, call, x);
        } else {
          assert notes[i] == notes[1..][i - 1];
        }
      }
    }
  }

  lemma {:induction false} MislabelledKeepsUnprocessed(notes: seq<(string, string)>, outputs: Outputs, version: string,
                                                       call: string -> Result<Record, string>, id: string)
    requires forall c :: call(c).Success? && !RecordsRun(call(c).value, version)
    requires !AlreadyProcessed(outputs, id, version)
    ensures !AlreadyProcessed(Analyze(notes, outputs, version, call).outputs, id, version)
    decreases |notes|
  {
    if notes != [] {
      var x := notes[0].0;
      if AlreadyProcessed(outputs, x, version) {
        MislabelledKeepsUnprocessed(notes[1..], outputs, version, call, id);
      } else {
        var o1 := outputs[OutputFileName(x, version, ModelName) := Existing(call(notes[0].1).value)];
        assert !AlreadyProcessed(o1, id, version);
        MislabelledKeepsUnprocessed(notes[1..], o1, version, call, id);
      }
    }
  }

  // ---------------------------------------------------------------------------------------------
  // Reading the outputs back

  /**
   * The name parse in `load_gemini_outputs`: strip `gemini_` and `.json`, split on every `_v`, take
   * the first piece as the note id and split the second once on `_` into version and model (its
   * `_` made `-`). Names that do not fit are passed over. The version is stored as `"v" + version`.
   */
  function ParseOutputName(fname: string): (r: Option<(string, string, string)>)
    ensures r.Some? ==> StartsWith(fname, "gemini_") && EndsWith(fname, ".json") && StartsWith(r.value.1, "v")
  {
    if !StartsWith(fname, "gemini_") || !EndsWith(fname, ".json") then None
    else
      ParseOutputBase(if |fname| >= 12 then fname[7..|fname| - 5] else [])
  }

  /** The parse of the name once `gemini_` and `.json` are stripped. */
  function ParseOutputBase(base: string): (r: Option<(string, string, string)>)
    ensures r.Some? ==> StartsWith(r.value.1, "v") && '_' !in r.value.2
  {
    var parts := SplitAll(base, "_v");
    if |parts| < 2 then None
    else match SplitOnce(parts[1], "_")
      case None => None
      case Some((version, model)) =>
        var m := ReplaceChar(model, '_', '-');
        assert forall i :: 0 <= i < |m| ==> m[i] != '_';
        assert ("v" + version)[..1] == "v";
        Some((parts[0], "v" + version, m))
  }

  lemma StripOutputAffixes(base: string)
    ensures ParseOutputName("gemini_" + base + ".json") == ParseOutputBase(base)
  {
    var fname := "gemini_" + base + ".json";
    assert fname[..7] == "gemini_";
    assert fname[|fname| - 5..] == ".json";
    assert fname[7..|fname| - 5] == base;
  }

  lemma FindFirstAt(s: string, sep: string, k: nat)
    requires sep != [] && OccursAt(s, sep, k)
    requires forall j :: 0 <= j < k ==> !OccursAt(s, sep, j)
    ensures FindFirst(s, sep) == Some(k)
  {
  }

  lemma NotContainedNowhere(s: string, t: string, j: nat)
    requires !Contains(s, t)
    ensures !OccursAt(s, t, j)
  {
    if OccursAt(s, t, j) {
      ContainsAt(s, t, j);
    }
  }

  /** The id ends at the first `_v` of the name's middle part. */
  lemma SplitAtId(id: string, rest: string)
    requires !Contains(id, "_v")
    ensures SplitAll(id + "_v" + rest, "_v") == [id] + SplitAll(rest, "_v")
  {
    var base := id + "_v" + rest;
    assert base[|id|..|id| + 2] == "_v";
    forall j | 0 <= j < |id| ensures !OccursAt(base, "_v", j) {
      if j + 2 <= |id| {
        assert base[j..j + 2] == id[j..j + 2];
        NotContainedNowhere(id, "_v", j);
        assert !OccursAt(id, "_v", j);
      } else {
        assert j + 1 == |id| && base[j + 1] == '_';
        assert base[j..j + 2][1] == '_';
        assert "_v"[1] == 'v';
      }
    }
    FindFirstAt(base, "_v", |id|);
    assert base[..|id|] == id && base[|id| + 2..] == rest;
  }

  /** After the id, the version (without `_`) runs to the first `_`, and the rest is the model. */
  lemma SplitVersionModel(version: string, model: string)
    requires '_' !in version && !Contains("_" + model, "_v")
    ensures SplitAll(version + "_" + model, "_v") == [version + "_" + model]
    ensures SplitOnce(version + "_" + model, "_") == Some((version, model))
  {
    var rest := version + "_" + model;
    forall j: nat ensures !OccursAt(rest, "_v", j) {
      if OccursAt(rest, "_v", j) {
        assert rest[j] == '_';
        if j >= |version| {
          assert rest[j..j + 2] == ("_" + model)[j - |version|..j - |version| + 2];
          NotContainedNowhere("_" + model, "_v", j - |version|);
        }
      }
    }
    assert rest[|version|..|version| + 1] == "_";
    forall j | 0 <= j < |version| ensures !OccursAt(rest, "_", j) {
      assert rest[j] == version[j];
    }
    FindFirstAt(rest, "_", |version|);
    assert rest[..|version|] == version && rest[|version| + 1..] == model;
  }

  /**
   * The output file name reads back as its note id, `"v"` + version and model (`_` made `-`),
   * when the id has no `_v`, the version no `_` and the model no `_v` (nor a leading `v`).
   */
  lemma OutputFileNameShape(id: string, version: string, model: string)
    ensures OutputFileName(id, version, model) == "gemini_" + (id + "_v" + (version + "_" + model)) + ".json"
  {
    var rest := version + "_" + model;
    assert "gemini_" + id + "_v" + version + "_" + model == "gemini_" + (id + "_v" + rest);
  }

  lemma OutputNameRoundTrip(id: string, version: string, model: string)
    requires !Contains(id, "_v") && '_' !in version && !Contains("_" + model, "_v")
    ensures ParseOutputName(OutputFileName(id, version, model)) == Some((id, "v" + version, ReplaceChar(model, '_', '-')))
  {
    var rest := version + "_" + model;
    var base := id + "_v" + rest;
    OutputFileNameShape(id, version, model);
    StripOutputAffixes(base);
    SplitAtId(id, rest);
    SplitVersionModel(version, model);
    assert SplitAll(base, "_v") == [id, rest];
  }

  /** A name without `_` and not starting with `v` has no `_v` after a leading `_`. */
  lemma NoUnderscoreNoV(m: string)
    requires '_' !in m && (m == [] || m[0] != 'v')
    ensures !Contains("_" + m, "_v")
  {
    var s := "_" + m;
    forall j: nat ensures !OccursAt(s, "_v", j) {
      if j + 2 <= |s| {
        if j == 0 {
          assert s[1] == m[0] != 'v';
          assert s[j..j + 2][1] != 'v';
        } else {
          assert s[j] == m[j - 1] != '_';
          assert s[j..j + 2][0] != '_';
        }
      }
    }
    ContainsOccurs(s, "_v");
  }

  lemma ReplaceAbsent(s: string, from: char, to: char)
    requires from !in s
    ensures ReplaceChar(s, from, to) == s
  {
  }

  lemma ModelNameClean()
    ensures '_' !in ModelName && !Contains("_" + ModelName, "_v")
    ensures ReplaceChar(ModelName, '_', '-') == ModelName
  {
    assert ModelName == "gemini-2.0-flash";
    assert '_' !in ModelName;
    NoUnderscoreNoV(ModelName);
    ReplaceAbsent(ModelName, '_', '-');
  }

  /** The files `analyze_notes` writes read back as the note, `"v"` + version and the model. */
  lemma WrittenOutputsReadBack(id: string, version: string)
    requires !Contains(id, "_v") && '_' !in version
    ensures ParseOutputName(OutputFileName(id, version, ModelName)) == Some((id, "v" + version, ModelName))
  {
    ModelNameClean();
    OutputNameRoundTrip(id, version, ModelName);
  }

  /** One row of the `gemini_analysis` table, keyed by (note id, version, model). */
  datatype AnalysisRow = AnalysisRow(dateExecuted: Option<Value>, answers: Record)

  type AnalysisTable = map<(string, string, string), AnalysisRow>

  /** The record without its three annotation keys. */
  function Answers(data: Record): (r: Record)
    ensures forall k :: k in r <==> k in data && !IsMetaKey(k)
    ensures forall k :: k in r ==> r[k] == data[k]
  {
    map k | k in data && !IsMetaKey(k) :: data[k]
  }

  /**
   * The loop of `load_gemini_outputs` before its commit: the table with one row per parsed name
   * (a later file with the same key replaces an earlier one), the count, and the exception a
   * file that cannot be read raises.
   */
  function LoadOutputs(names: seq<string>, read: string -> Result<Record, string>, table: AnalysisTable)
    : (r: (AnalysisTable, nat, Option<string>))
    ensures r.1 <= |names|
    ensures table.Keys <= r.0.Keys
    decreases |names|
  {
    if names == [] then (table, 0, None)
    else match ParseOutputName(names[0])
      case None => LoadOutputs(names[1..], read, table)
      case Some(key) =>
        match read(names[0])
        case Failure(e) => (table, 0, Some(e))
        case Success(data) =>
          var rest := LoadOutputs(names[1..], read, table[key := AnalysisRow(Get(data, DateKey), Answers(data))]);
          (rest.0, rest.1 + 1, rest.2)
  }

  /**
   * `load_gemini_outputs`: the table after the run and the number loaded. An exception escapes
   * before the commit, so then the table is left as it was.
   */
  method LoadGeminiOutputs(table0: AnalysisTable, names: seq<string>, read: string -> Result<Record, string>)
    returns (table: AnalysisTable, count: nat, raised: Option<string>)
    ensures raised == LoadOutputs(names, read, table0).2
    ensures raised.None? ==> table == LoadOutputs(names, read, table0).0 && count == LoadOutputs(names, read, table0).1
    ensures raised.Some? ==> table == table0
  {
    ghost var total := LoadOutputs(names, read, table0);
    table, count := table0, 0;
    var i := 0;
    assert names[i..] == names;
    while i < |names|
      invariant 0 <= i <= |names|
      invariant total.2 == LoadOutputs(names[i..], read, table).2
      invariant total.2.None? ==>
        total.0 == LoadOutputs(names[i..], read, table).0 && total.1 == count + LoadOutputs(names[i..], read, table).1
    {
      LoadStep(names, i, read, table);
      var fname := names[i];
      i := i + 1;
      var parsed := ParseOutputName(fname);
      if parsed.None? {
        continue;
      }
      var data := read(fname);
      if data.Failure? {
        return table0, 0, Some(data.error);
      }
      table := table[parsed.value := AnalysisRow(Get(data.value, DateKey), Answers(data.value))];
      count := count + 1;
    }
    assert names[i..] == [];
    raised := None;
  }

  /** What the file at position `i` contributes to the load from there on, part by part. */
  lemma LoadStep(names: seq<string>, i: nat, read: string -> Result<Record, string>, table: AnalysisTable)
    requires i < |names|
    ensures var out := LoadOutputs(names[i..], read, table); var key := ParseOutputName(names[i]);
      && (key.None? ==> out == LoadOutputs(names[i + 1..], read, table))
      && (key.Some? && read(names[i]).Failure? ==> out.2 == Some(read(names[i]).error))
      && (key.Some? && read(names[i]).Success? ==>
            var rest := LoadOutputs(names[i + 1..], read,
                                    table[key.value := AnalysisRow(Get(read(names[i]).value, DateKey), Answers(read(names[i]).value))]);
            out.0 == rest.0 && out.1 == rest.1 + 1 && out.2 == rest.2)
  {
    assert names[i..][0] == names[i] && names[i..][1..] == names[i + 1..];
  }

  /** Loading the files `analyze_notes` wrote stores each one's answers under its note, set and model. */
  lemma LoadedUnderItsKey(id: string, version: string, data: Record, read: string -> Result<Record, string>, table: AnalysisTable)
    requires !Contains(id, "_v") && '_' !in version
    requires read(OutputFileName(id, version, ModelName)) == Success(data)
    ensures var r := LoadOutputs([OutputFileName(id, version, ModelName)], read, table);
      && r.1 == 1 && r.2.None?
      && r.0 == table[(id, "v" + version, ModelName) := AnalysisRow(Get(data, DateKey), Answers(data))]
  {
    WrittenOutputsReadBack(id, version);
    var names := [OutputFileName(id, version, ModelName)];
    assert names[1..] == [];
  }
}
