/**
 * Integration of a Notion markdown export (`integrate_exports`): every top-level directory of the
 * export whose name ends in a Notion id is made a page (with its id-named ancestors), and every
 * `*.md` file in it supplies the content of the page named by the last word of its file name,
 * unless that page already has text.
 *
 * The filesystem is given as the directory listing, in listing order: each entry is a directory
 * with the markdown files `glob` found in it (name and text), or some other file.
 */
module Exports {
  import opened Wrappers
  import opened Text
  import opened PageStore

  predicate IsHexDigit(c: char) {
    ('0' <= c <= '9') || ('a' <= c <= 'f') || ('A' <= c <= 'F')
  }

  predicate AllHex(s: string) {
    forall i :: 0 <= i < |s| ==> IsHexDigit(s[i])
  }

  /**
   * The textual UUID layout of section 3 of RFC 4122: 8-4-4-4-12 hex digits separated by hyphens
   * (no version or variant check).
   */
  predicate IsUuidLayout(s: string) {
    |s| == 36 && forall i :: 0 <= i < 36 ==> if i in {8, 13, 18, 23} then s[i] == '-' else IsHexDigit(s[i])
  }

  /** A full match of the id pattern: 32 hex digits, or the hyphenated layout. */
  predicate IsNotionId(s: string)
    ensures IsNotionId(s) ==> |s| >= 32 && ' ' !in s
  {
    (|s| == 32 && AllHex(s)) || IsUuidLayout(s)
  }

  /** `extract_notion_id_from_name`: the word after the last space, if it is an id. */
  function ExtractNotionId(name: string): (r: Option<string>)
    ensures ' ' !in name ==> r.None?
    ensures r.Some? ==> IsNotionId(r.value) && EndsWith(name, " " + r.value)
  {
    match RSplitOnce(name, ' ')
    case None => None
    case Some((head, tail)) =>
      assert name == head + " " + tail;
      assert name[|name| - |" " + tail|..] == " " + tail;
      if IsNotionId(tail) then Some(tail) else None
  }

  /** The id taken from a markdown file name: the word after its last space, before `.md`, unchecked. */
  function FileNoteId(name: string): (r: Option<string>)
    ensures r.Some? ==> ' ' !in r.value && EndsWith(name, " " + r.value + ".md")
  {
    if !EndsWith(name, ".md") then None
    else
      var stem := name[..|name| - 3];
      match RSplitOnce(stem, ' ')
      case None => None
      case Some((head, tail)) =>
        assert name == head + " " + tail + ".md";
        assert name[|name| - |" " + tail + ".md"|..] == " " + tail + ".md";
        Some(tail)
  }

  const ExportsDir := "notion_notes"

  /** One markdown file of the export: its name and its text. */
  datatype MarkdownFile = MarkdownFile(name: string, body: string)

  /** One entry of the export directory. */
  datatype ExportEntry =
    | Directory(name: string, files: seq<MarkdownFile>)
    | OtherFile(name: string)

  /** The stored row has text: content that is present and not blank. */
  predicate HasText(row: PageRow) {
    row.content.Some? && Trim(row.content.value) != []
  }

  /**
   * `ensure_parent_in_db` for the directory whose path components are `path`: the id its name
   * ends in, after inserting it (and, first, its id-named ancestors) when it is not stored yet.
   */
  function EnsureParent(t: Tables, path: seq<string>): (r: (Option<string>, Tables))
    ensures path != [] ==> r.0 == ExtractNotionId(path[|path| - 1])
    ensures path == [] ==> r.0.None?
    ensures r.0.Some? ==> r.0.value in r.1.pages
    ensures t.pages.Keys <= r.1.pages.Keys
    ensures forall k :: k in t.pages ==> r.1.pages[k] == t.pages[k]
    ensures r.1.errors == t.errors && |r.1.writes| >= |t.writes|
    decreases |path|
  {
    if path == [] then (None, t)
    else match ExtractNotionId(path[|path| - 1])
      case None => (None, t)
      case Some(id) =>
        if id in t.pages then (Some(id), t)
        else
          var up := EnsureParent(t, path[..|path| - 1]);
          (Some(id), Save(up.1, id, up.0, None, None, None))
  }

  /** One markdown file: skipped, or its trimmed text saved with no timestamps and counted. */
  function IntegrateFile(t: Tables, parent: Option<string>, f: MarkdownFile): (r: (nat, Tables))
    ensures r.0 <= 1
    ensures r.1.errors == t.errors && |r.1.writes| == |t.writes| + r.0
  {
    match FileNoteId(f.name)
    case None => (0, t)
    case Some(id) =>
      var content := Trim(f.body);
      if content == [] then (0, t)
      else if id in t.pages && HasText(t.pages[id]) then (0, t)
      else (1, Save(t, id, parent, None, None, Some(content)))
  }

  /**
   * A file is counted exactly when it names an id, has text, and that id's row is missing or
   * blank; a counted file saves its trimmed text, an uncounted one changes nothing.
   */
  lemma IntegrateFileOutcome(t: Tables, parent: Option<string>, f: MarkdownFile)
    ensures var r := IntegrateFile(t, parent, f);
      && (r.0 == 0 ==> r.1 == t)
      && (r.0 == 1 <==>
            && FileNoteId(f.name).Some? && Trim(f.body) != []
            && (FileNoteId(f.name).value !in t.pages || !HasText(t.pages[FileNoteId(f.name).value])))
      && (r.0 == 1 ==> r.1 == Save(t, FileNoteId(f.name).value, parent, None, None, Some(Trim(f.body))))
  {
  }

  /** The files of one directory, in order. */
  function IntegrateFiles(t: Tables, parent: Option<string>, files: seq<MarkdownFile>): (r: (nat, Tables))
    ensures r.0 <= |files|
    ensures r.1.errors == t.errors && |r.1.writes| == |t.writes| + r.0
    decreases |files|
  {
    if files == [] then (0, t)
    else
      var first := IntegrateFile(t, parent, files[0]);
      var rest := IntegrateFiles(first.1, parent, files[1..]);
      (first.0 + rest.0, rest.1)
  }

  /** The parent every file of a directory entry is saved under. */
  function EntryParent(t: Tables, name: string): (Option<string>, Tables) {
    if ExtractNotionId(name).Some? then EnsureParent(t, [ExportsDir, name]) else (None, t)
  }

  /** One entry of the export directory. */
  function IntegrateEntry(t: Tables, e: ExportEntry): (r: (nat, Tables))
    ensures r.0 <= (if e.Directory? then |e.files| else 0)
    ensures r.1.errors == t.errors && |r.1.writes| >= |t.writes| + r.0
  {
    match e
    case OtherFile(_) => (0, t)
    case Directory(name, files) =>
      var p := EntryParent(t, name);
      IntegrateFiles(p.1, p.0, files)
  }

  /** `integrate_exports`: the number of notes added, and the tables afterwards. */
  function Integrate(t: Tables, entries: seq<ExportEntry>): (r: (nat, Tables))
    ensures r.1.errors == t.errors && |r.1.writes| >= |t.writes| + r.0
    decreases |entries|
  {
    if entries == [] then (0, t)
    else
      var first := IntegrateEntry(t, entries[0]);
      var rest := Integrate(first.1, entries[1..]);
      (first.0 + rest.0, rest.1)
  }

  /** `ensure_parent_in_db`. */
  method EnsureParentInDb(store: Store, path: seq<string>) returns (id: Option<string>)
    modifies store
    ensures (id, store.Contents()) == EnsureParent(old(store.Contents()), path)
    decreases |path|
  {
    if path == [] {
      return None;
    }
    id := ExtractNotionId(path[|path| - 1]);
    if id.None? {
      return;
    }
    var stored := store.GetPage(id.value);
    if stored.Some? {
      return;
    }
    var grandparent := EnsureParentInDb(store, path[..|path| - 1]);
    store.SavePage(id.value, grandparent, None, None, None);
  }

  /** `integrate_exports`. */
  method IntegrateExports(store: Store, entries: seq<ExportEntry>) returns (notesAdded: nat)
    modifies store
    ensures (notesAdded, store.Contents()) == Integrate(old(store.Contents()), entries)
  {
    notesAdded := 0;
    var i := 0;
    while i < |entries|
      invariant 0 <= i <= |entries|
      invariant Integrate(old(store.Contents()), entries).1 == Integrate(store.Contents(), entries[i..]).1
      invariant Integrate(old(store.Contents()), entries).0 == notesAdded + Integrate(store.Contents(), entries[i..]).0
    {
      assert entries[i..][1..] == entries[i + 1..];
      var entry := entries[i];
      i := i + 1;
      if entry.OtherFile? {
        continue;
      }
      var parent: Option<string> := None;
      if ExtractNotionId(entry.name).Some? {
        parent := EnsureParentInDb(store, [ExportsDir, entry.name]);
      }
      var added := IntegrateDirectoryFiles(store, parent, entry.files);
      notesAdded := notesAdded + added;
    }
  }

  /** The inner loop of `integrate_exports`: the markdown files of one export directory. */
  method IntegrateDirectoryFiles(store: Store, parent: Option<string>, files: seq<MarkdownFile>)
    returns (added: nat)
    modifies store
    ensures (added, store.Contents()) == IntegrateFiles(old(store.Contents()), parent, files)
  {
    ghost var whole := IntegrateFiles(store.Contents(), parent, files);
    added := 0;
    var j := 0;
    assert files[j..] == files;
    while j < |files|
      invariant 0 <= j <= |files|
      invariant whole.0 == added + IntegrateFiles(store.Contents(), parent, files[j..]).0
      invariant whole.1 == IntegrateFiles(store.Contents(), parent, files[j..]).1
    {
      ghost var before := store.Contents();
      var one := IntegrateMarkdownFile(store, parent, files[j]);
      IntegrateFilesStep(before, parent, files, j);
      added := added + one;
      j := j + 1;
    }
    assert files[j..] == [];
  }

  /** `IntegrateFiles` from position `j` is file `j` followed by the files after it. */
  lemma IntegrateFilesStep(t: Tables, parent: Option<string>, files: seq<MarkdownFile>, j: nat)
    requires j < |files|
    ensures var first := IntegrateFile(t, parent, files[j]);
      var rest := IntegrateFiles(first.1, parent, files[j + 1..]);
      IntegrateFiles(t, parent, files[j..]) == (first.0 + rest.0, rest.1)
  {
    assert files[j..][1..] == files[j + 1..];
  }

  /** The body of that loop: one markdown file saved under `parent`, or skipped. */
  method IntegrateMarkdownFile(store: Store, parent: Option<string>, file: MarkdownFile) returns (added: nat)
    modifies store
    ensures (added, store.Contents()) == IntegrateFile(old(store.Contents()), parent, file)
  {
    var uniqueId := FileNoteId(file.name);
    if uniqueId.None? {
      return 0;
    }
    var content := Trim(file.body);
    if content == [] {
      return 0;
    }
    var row := store.GetPage(uniqueId.value);
    if row.Some? {
      if row.value.content.None? || Trim(row.value.content.value) == [] {
        store.SavePage(uniqueId.value, parent, None, None, Some(content));
        return 1;
      }
      return 0;
    }
    store.SavePage(uniqueId.value, parent, None, None, Some(content));
    return 1;
  }
}
