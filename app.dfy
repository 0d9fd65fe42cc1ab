/**
 * The display helpers of the React front end (`gui/src/App.js`): a note's title, the question an
 * answer key refers to, the question versions listed from the file names, the two note filters,
 * the sort-direction toggle and the tab-to-view mapping.
 */
module App {
  import opened Wrappers
  import opened Text
  import opened Backend
  import Gemini
  import Analysis

  // ---------------------------------------------------------------------------------------------
  // Note titles

  const Untitled := "Untitled"

  /** `content.split('\n')[0]`: everything before the first line break. */
  function FirstLine(s: string): (line: string)
    ensures StartsWith(s, line) && '\n' !in line
    ensures |line| < |s| ==> s[|line|] == '\n'
  {
    if '\n' in s then s[..IndexOfChar(s, '\n')] else s
  }

  /** `s` without its leading run of `#`. */
  function DropHashes(s: string): (r: string)
    ensures |r| <= |s| && r == s[|s| - |r|..]
    ensures r == [] || r[0] != '#'
  {
    if s != [] && s[0] == '#' then DropHashes(s[1..]) else s
  }

  // The heading-marker replace: a leading run of `#` and the whitespace after it removed.
  function StripHeadingMarker(line: string): string {
    if line != [] && line[0] == '#' then TrimStart(DropHashes(line)) else line
  }

  /** `getNoteTitle`: the first line without its heading marker, trimmed, or `"Untitled"`. */
  function GetNoteTitle(content: Option<string>): (title: string)
    ensures title != [] && '\n' !in title
    ensures content.None? || content == Some([]) ==> title == Untitled
  {
    if content.None? || content.value == [] then Untitled
    else
      var line := FirstLine(content.value);
      var t := Trim(StripHeadingMarker(line));
      TrimKeeps(StripHeadingMarker(line));
      if t == [] then Untitled else t
  }

  lemma {:induction false} DropHashesOf(hashes: string, text: string)
    requires forall i :: 0 <= i < |hashes| ==> hashes[i] == '#'
    requires text == [] || text[0] != '#'
    ensures DropHashes(hashes + text) == text
  {
    if hashes != [] {
      assert (hashes + text)[1..] == hashes[1..] + text;
      DropHashesOf(hashes[1..], text);
    }
  }

  lemma FirstLineOf(line: string, rest: string)
    requires '\n' !in line
    ensures FirstLine(line + "\n" + rest) == line
  {
    var s := line + "\n" + rest;
    assert s[|line|] == '\n';
    assert s[..|line|] == line;
    assert '\n' !in s[..|line|];
  }

  /**
   * A note that starts with a markdown heading (one or more `#`, then the heading text) is titled
   * with the heading text, trimmed.
   */
  lemma HeadingTitle(hashes: string, text: string, rest: string)
    requires hashes != [] && forall i :: 0 <= i < |hashes| ==> hashes[i] == '#'
    requires text == [] || text[0] != '#'
    requires '\n' !in text && Trim(text) != []
    ensures GetNoteTitle(Some(hashes + text + "\n" + rest)) == Trim(text)
  {
    var line := hashes + text;
    var content := line + "\n" + rest;
    NoBreakInHeading(hashes, text);
    FirstLineOf(line, rest);
    assert FirstLine(content) == line;
    HeadingLineTitle(hashes, text);
  }

  lemma HeadingLineTitle(hashes: string, text: string)
    requires hashes != [] && forall i :: 0 <= i < |hashes| ==> hashes[i] == '#'
    requires text == [] || text[0] != '#'
    ensures Trim(StripHeadingMarker(hashes + text)) == Trim(text)
  {
    StripHeadingOf(hashes, text);
    TrimAfterTrimStart(text);
  }

  lemma NoBreakInHeading(hashes: string, text: string)
    requires forall i :: 0 <= i < |hashes| ==> hashes[i] == '#'
    requires '\n' !in text
    ensures '\n' !in hashes + text
  {
    var line := hashes + text;
    forall i | 0 <= i < |line| ensures line[i] != '\n' {
      if i < |hashes| {
        assert line[i] == hashes[i];
      } else {
        assert line[i] == text[i - |hashes|];
      }
    }
  }

  lemma StripHeadingOf(hashes: string, text: string)
    requires hashes != [] && forall i :: 0 <= i < |hashes| ==> hashes[i] == '#'
    requires text == [] || text[0] != '#'
    ensures StripHeadingMarker(hashes + text) == TrimStart(text)
  {
    DropHashesOf(hashes, text);
    assert (hashes + text)[0] == '#';
  }

  /** A note whose first line is not a heading is titled with that line, trimmed. */
  lemma PlainTitle(line: string, rest: string)
    requires '\n' !in line && (line == [] || line[0] != '#') && Trim(line) != []
    ensures GetNoteTitle(Some(line + "\n" + rest)) == Trim(line)
  {
    FirstLineOf(line, rest);
  }

  /** A first line of nothing but heading marks and whitespace gives `"Untitled"`. */
  lemma MarkerOnlyUntitled(hashes: string, ws: string, rest: string)
    requires hashes != [] && forall i :: 0 <= i < |hashes| ==> hashes[i] == '#'
    requires AllSpace(ws) && '\n' !in ws
    ensures GetNoteTitle(Some(hashes + ws + "\n" + rest)) == Untitled
  {
    NoBreakInHeading(hashes, ws);
    FirstLineOf(hashes + ws, rest);
    assert ws == [] || ws[0] != '#';
    StripHeadingOf(hashes, ws);
    AllSpaceTrimsToEmpty(ws);
    AllSpaceTrimsToEmpty([]);
  }

  // ---------------------------------------------------------------------------------------------
  // Questions for answer keys

  const UnknownQuestion := "Unknown question"
  const QuestionNotFound := "Question not found"

  /** A `q` followed by a digit starts at index `j`. */
  predicate QuestionMarkAt(key: string, j: nat) {
    j + 1 < |key| && key[j] == 'q' && IsDigit(key[j + 1])
  }

  /** `key.match(/q(\d+)/)`: the digits after the first `q` that is followed by a digit. */
  function QuestionNumber(key: string): (r: Option<string>)
    ensures r.None? <==> forall j: nat :: !QuestionMarkAt(key, j)
    ensures r.Some? ==> (r.value != [] && AllDigits(r.value)
      && exists j: nat :: QuestionMarkAt(key, j) && (forall i: nat :: i < j ==> !QuestionMarkAt(key, i))
                          && r.value == LeadingDigits(key[j + 1..]))
    decreases |key|
  {
    if |key| < 2 then None
    else if key[0] == 'q' && IsDigit(key[1]) then
      assert QuestionMarkAt(key, 0);
      Some(LeadingDigits(key[1..]))
    else
      var r := QuestionNumber(key[1..]);
      assert !QuestionMarkAt(key, 0);
      if r.Some? then
        var j: nat :| QuestionMarkAt(key[1..], j) && (forall i: nat :: i < j ==> !QuestionMarkAt(key[1..], i))
                      && r.value == LeadingDigits(key[1..][j + 1..]);
        FirstMarkShift(key, j);
        r
      else
        NoMarkShift(key);
        r
  }

  /** A first mark in `key[1..]`, when `key` has none at 0, is the first mark of `key`, one further on. */
  lemma FirstMarkShift(key: string, j: nat)
    requires |key| >= 2 && !QuestionMarkAt(key, 0)
    requires QuestionMarkAt(key[1..], j) && forall i: nat :: i < j ==> !QuestionMarkAt(key[1..], i)
    ensures QuestionMarkAt(key, j + 1) && forall i: nat :: i < j + 1 ==> !QuestionMarkAt(key, i)
    ensures key[1..][j + 1..] == key[j + 2..]
  {
    forall i: nat | 0 < i < j + 1 ensures !QuestionMarkAt(key, i) {
      assert !QuestionMarkAt(key[1..], i - 1);
    }
  }

  /** No mark in `key[1..]` and none at 0: no mark in `key`. */
  lemma NoMarkShift(key: string)
    requires |key| >= 2 && !QuestionMarkAt(key, 0)
    requires forall j: nat :: !QuestionMarkAt(key[1..], j)
    ensures forall j: nat :: !QuestionMarkAt(key, j)
  {
    forall j: nat | j > 0 ensures !QuestionMarkAt(key, j) {
      assert !QuestionMarkAt(key[1..], j - 1);
    }
  }

  /** `version.replace(/^v/, '')`. */
  function NormalizedVersion(version: string): string {
    if version != [] && version[0] == 'v' then version[1..] else version
  }

  /**
   * `getQuestionForKey`: the question the key's number names (counting from 1) in the given
   * version's list, `"Unknown question"` without a version or a number, `"Question not found"`
   * when the number is out of range or the version has no list.
   */
  function GetQuestionForKey(key: string, version: Option<string>, questions: map<string, seq<string>>): (r: string)
    ensures version.None? || version == Some([]) || QuestionNumber(key).None? ==> r == UnknownQuestion
    ensures version.Some? && version.value != [] && QuestionNumber(key).Some? ==>
      var qs := Lookup(questions, "v" + NormalizedVersion(version.value));
      var n := DigitsValue(QuestionNumber(key).value);
      if 1 <= n <= |qs| then r == qs[n - 1] else r == QuestionNotFound
  {
    if version.None? || version.value == [] then UnknownQuestion
    else
      var versionKey := NormalizedVersion(version.value);
      match QuestionNumber(key)
      case None => UnknownQuestion
      case Some(digits) =>
        var questionIndex := DigitsValue(digits) - 1;
        var versionQuestions := Lookup(questions, "v" + versionKey);
        if 0 <= questionIndex < |versionQuestions| then versionQuestions[questionIndex] else QuestionNotFound
  }

  /** `questions[v] || []`. */
  function Lookup(questions: map<string, seq<string>>, v: string): seq<string> {
    if v in questions then questions[v] else []
  }

  /** Versions `"1"` and `"v1"` name the same question list. */
  lemma VersionPrefixOptional(key: string, v: string, questions: map<string, seq<string>>)
    requires v != [] && v[0] != 'v'
    ensures GetQuestionForKey(key, Some("v" + v), questions) == GetQuestionForKey(key, Some(v), questions)
  {
    assert ("v" + v)[1..] == v;
  }

  /** The key `q<n>` names question n of the version's list, when there is one. */
  lemma NumberedKeyAnswers(n: nat, tail: string, v: string, questions: map<string, seq<string>>)
    requires tail == [] || !IsDigit(tail[0])
    requires v != [] && v[0] != 'v' && "v" + v in questions && 1 <= n <= |questions["v" + v]|
    ensures GetQuestionForKey("q" + NatToDecimal(n) + tail, Some(v), questions) == questions["v" + v][n - 1]
  {
    var d := NatToDecimal(n);
    LeadingQuestionNumber(d, tail);
    DecimalRoundTrip(n);
  }

  /** A key that starts with `q` and digits is numbered by those digits. */
  lemma LeadingQuestionNumber(d: string, tail: string)
    requires d != [] && AllDigits(d) && (tail == [] || !IsDigit(tail[0]))
    ensures QuestionNumber("q" + d + tail) == Some(d)
  {
    var key := "q" + d + tail;
    assert key[0] == 'q' && key[1] == d[0];
    assert key[1..] == d + tail;
    LeadingDigitsOf(d, tail);
  }

  // ---------------------------------------------------------------------------------------------
  // Question versions from file names

  /** `questions_v(\d+)\.json` matched at the start of `s`: the digits. */
  function QuestionsMatchAt(s: string): (r: Option<string>)
    ensures r.Some? ==> r.value != [] && AllDigits(r.value) && StartsWith(s, Gemini.QuestionsFileName(r.value))
  {
    if !StartsWith(s, "questions_v") then None
    else
      var d := LeadingDigits(s[11..]);
      if d != [] && StartsWith(s[11 + |d|..], ".json") then
        assert s[..11 + |d| + 5] == Gemini.QuestionsFileName(d) by {
          assert s[..11] == "questions_v";
          assert s[11..11 + |d|] == d;
          assert s[11 + |d|..11 + |d| + 5] == ".json";
        }
        Some(d)
      else None
  }

  /** `file.match(/questions_v(\d+)\.json/)`: the leftmost match anywhere in the name. */
  function QuestionsMatch(s: string): (r: Option<string>)
    ensures r.Some? ==> r.value != [] && AllDigits(r.value)
    decreases |s|
  {
    if QuestionsMatchAt(s).Some? then QuestionsMatchAt(s)
    else if s == [] then None
    else QuestionsMatch(s[1..])
  }

  /** The version list: `"v" + digits` for every matching file name, in listing order. */
  function ExtractVersions(files: seq<string>): (versions: seq<string>)
    ensures |versions| <= |files|
  {
    if files == [] then []
    else
      var m := QuestionsMatch(files[|files| - 1]);
      ExtractVersions(files[..|files| - 1]) + (if m.Some? then ["v" + m.value] else [])
  }

  /** The list of a concatenation is the concatenation of the lists: listing order is kept. */
  lemma {:induction false} ExtractVersionsAppend(a: seq<string>, b: seq<string>)
    ensures ExtractVersions(a + b) == ExtractVersions(a) + ExtractVersions(b)
    decreases |b|
  {
    if b == [] {
      assert a + b == a;
    } else {
      var init := b[..|b| - 1];
      assert (a + b)[..|a + b| - 1] == a + init;
      assert (a + b)[|a + b| - 1] == b[|b| - 1];
      ExtractVersionsAppend(a, init);
    }
  }

  /** A question file is listed under `"v"` and its own digits, leading zeros kept. */
  lemma QuestionsFileListed(d: string)
    requires d != [] && AllDigits(d)
    ensures ExtractVersions([Gemini.QuestionsFileName(d)]) == ["v" + d]
  {
    var f := Gemini.QuestionsFileName(d);
    assert f == "questions_v" + (d + ".json");
    assert f[..11] == "questions_v";
    assert f[11..] == d + ".json";
    LeadingDigitsOf(d, ".json");
    assert f[11 + |d|..] == ".json";
    assert [f][..0] == [];
  }

  /** Every file the command line counts as a question set is listed, with the same number. */
  lemma CliVersionsListed(f: string)
    requires Analysis.QuestionsFileVersion(f).Some?
    ensures QuestionsMatch(f).Some? && DigitsValue(QuestionsMatch(f).value) == Analysis.QuestionsFileVersion(f).value
  {
  }

  /** The front end's match is not anchored: a name with a prefix is listed, yet never chosen by the command line. */
  lemma PrefixedNameListedOnly(d: string)
    requires d != [] && AllDigits(d)
    ensures QuestionsMatch("x" + Gemini.QuestionsFileName(d)) == Some(d)
    ensures Analysis.QuestionsFileVersion("x" + Gemini.QuestionsFileName(d)).None?
  {
    var f := Gemini.QuestionsFileName(d);
    var s := "x" + f;
    assert s[0] == 'x';
    assert !StartsWith(s, "questions_v");
    assert s[1..] == f;
    assert f == "questions_v" + (d + ".json");
    assert f[..11] == "questions_v";
    assert f[11..] == d + ".json";
    LeadingDigitsOf(d, ".json");
    assert f[11 + |d|..] == ".json";
    assert QuestionsMatchAt(f) == Some(d);
  }

  // ---------------------------------------------------------------------------------------------
  // Note filters

  /** `note.content && note.content.trim() !== ""`. */
  predicate HasContent(note: Note) {
    note.content.Some? && note.content.value != [] && Trim(note.content.value) != []
  }

  /**
   * The properties every plain `{}` object inherits from `Object.prototype`. Reading one of them
   * from `answersIndex` gives a function or an object, which is truthy.
   */
  const ObjectPrototypeNames: set<string> := {
    "constructor", "hasOwnProperty", "isPrototypeOf", "propertyIsEnumerable", "toLocaleString",
    "toString", "valueOf", "__proto__", "__defineGetter__", "__defineSetter__", "__lookupGetter__",
    "__lookupSetter__"
  }

  /**
   * `answersIndex[note.id]` is truthy: the id is one `GET /answers_index` listed, or it names a
   * property the index object inherits.
   */
  predicate IsAnalysed(note: Note, answersIndex: set<string>) {
    note.id in answersIndex || note.id in ObjectPrototypeNames
  }

  /** The content filter. */
  function WithContent(notes: seq<Note>): (r: seq<Note>)
    ensures |r| <= |notes|
  {
    if notes == [] then []
    else WithContent(notes[..|notes| - 1]) + (if HasContent(notes[|notes| - 1]) then [notes[|notes| - 1]] else [])
  }

  /** The analysis filter. */
  function Analysed(notes: seq<Note>, answersIndex: set<string>): (r: seq<Note>)
    ensures |r| <= |notes|
  {
    if notes == [] then []
    else
      var last := notes[|notes| - 1];
      Analysed(notes[..|notes| - 1], answersIndex) + (if IsAnalysed(last, answersIndex) then [last] else [])
  }

  /** Step 1 of `processedNotes`: the filters that are switched on, content first. */
  function FilterNotes(notes: seq<Note>, contentFilter: bool, analysisFilter: bool, answersIndex: set<string>): (r: seq<Note>)
    ensures |r| <= |notes|
    ensures !contentFilter && !analysisFilter ==> r == notes
  {
    var filtered := if contentFilter then WithContent(notes) else notes;
    if analysisFilter then Analysed(filtered, answersIndex) else filtered
  }

  /** Filtering keeps the order: the result for a concatenation is the concatenation of the results. */
  lemma FiltersKeepOrder(a: seq<Note>, b: seq<Note>, answersIndex: set<string>)
    ensures WithContent(a + b) == WithContent(a) + WithContent(b)
    ensures Analysed(a + b, answersIndex) == Analysed(a, answersIndex) + Analysed(b, answersIndex)
  {
    WithContentAppend(a, b);
    AnalysedAppend(a, b, answersIndex);
  }

  lemma {:induction false} WithContentAppend(a: seq<Note>, b: seq<Note>)
    ensures WithContent(a + b) == WithContent(a) + WithContent(b)
    decreases |b|
  {
    if b == [] {
      assert a + b == a;
    } else {
      var init := b[..|b| - 1];
      assert (a + b)[..|a + b| - 1] == a + init;
      assert (a + b)[|a + b| - 1] == b[|b| - 1];
      WithContentAppend(a, init);
    }
  }

  lemma {:induction false} AnalysedAppend(a: seq<Note>, b: seq<Note>, answersIndex: set<string>)
    ensures Analysed(a + b, answersIndex) == Analysed(a, answersIndex) + Analysed(b, answersIndex)
    decreases |b|
  {
    if b == [] {
      assert a + b == a;
    } else {
      var init := b[..|b| - 1];
      assert (a + b)[..|a + b| - 1] == a + init;
      assert (a + b)[|a + b| - 1] == b[|b| - 1];
      AnalysedAppend(a, init, answersIndex);
    }
  }

  lemma {:induction false} WithContentMembers(notes: seq<Note>)
    ensures forall n :: n in WithContent(notes) <==> n in notes && HasContent(n)
  {
    if notes != [] {
      var init := notes[..|notes| - 1];
      WithContentMembers(init);
      assert notes == init + [notes[|notes| - 1]];
    }
  }

  lemma {:induction false} AnalysedMembers(notes: seq<Note>, answersIndex: set<string>)
    ensures forall n :: n in Analysed(notes, answersIndex) <==> n in notes && IsAnalysed(n, answersIndex)
  {
    if notes != [] {
      var init := notes[..|notes| - 1];
      AnalysedMembers(init, answersIndex);
      assert notes == init + [notes[|notes| - 1]];
    }
  }

  /**
   * A note is shown exactly when it is in the list and passes every filter that is on; no note is
   * added.
   */
  lemma FilterNotesMembers(notes: seq<Note>, contentFilter: bool, analysisFilter: bool, answersIndex: set<string>)
    ensures forall n :: n in FilterNotes(notes, contentFilter, analysisFilter, answersIndex) <==>
      n in notes && (contentFilter ==> HasContent(n)) && (analysisFilter ==> IsAnalysed(n, answersIndex))
  {
    WithContentMembers(notes);
    var filtered := if contentFilter then WithContent(notes) else notes;
    AnalysedMembers(filtered, answersIndex);
  }

  /**
   * A note whose id names an inherited property passes the analysis filter whatever the index
   * holds, even an empty one.
   */
  lemma InheritedNamePassesAnalysisFilter(notes: seq<Note>, n: Note, answersIndex: set<string>)
    requires n in notes && n.id in ObjectPrototypeNames
    ensures n in FilterNotes(notes, false, true, answersIndex)
  {
    FilterNotesMembers(notes, false, true, answersIndex);
  }

  // ---------------------------------------------------------------------------------------------
  // Sorting direction and view tabs

  /** `toggleSortDirection`: `"asc"` becomes `"desc"`, anything else `"asc"`. */
  function ToggleSortDirection(direction: string): (r: string)
    ensures r == "asc" || r == "desc"
    ensures r != direction || direction !in {"asc", "desc"}
  {
    if direction == "asc" then "desc" else "asc"
  }

  /** Toggling twice restores a valid direction. */
  lemma ToggleTwice(direction: string)
    requires direction == "asc" || direction == "desc"
    ensures ToggleSortDirection(ToggleSortDirection(direction)) == direction
  {
  }

  const ViewModes := ["all", "metadata", "content", "analysis"]

  /** `handleTabChange`: the view mode of a tab index, absent (`undefined`) outside 0..3. */
  function ViewModeForTab(tab: int): (r: Option<string>)
    ensures r.Some? <==> 0 <= tab < 4
  {
    if 0 <= tab < |ViewModes| then Some(ViewModes[tab]) else None
  }

  /** Different tabs show different views. */
  lemma ViewModesDistinct(a: int, b: int)
    requires ViewModeForTab(a).Some? && ViewModeForTab(a) == ViewModeForTab(b)
    ensures a == b
  {
  }
}
