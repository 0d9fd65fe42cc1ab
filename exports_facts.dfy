/**
 * What export integration guarantees: which names yield ids, that ancestors are inserted before
 * descendants, that a page with text is never overwritten, and that integrating the same export a
 * second time adds nothing.
 */
module ExportsFacts {
  import opened Wrappers
  import opened Text
  import opened PageStore
  import opened Exports

  /** Every id the pattern accepts is read back from any name that ends in a space and that id. */
  lemma NotionIdOfName(title: string, id: string)
    requires IsNotionId(id)
    ensures ExtractNotionId(title + " " + id) == Some(id)
  {
    assert ' ' !in id by {
      forall i | 0 <= i < |id| ensures id[i] != ' ' {
        if !(|id| == 32 && AllHex(id)) {
          assert i in {8, 13, 18, 23} ==> id[i] == '-';
        }
      }
    }
    assert title + " " + id == title + [' '] + id;
    RSplitOnceOf(title, ' ', id);
  }

  /** A name whose last word is not an id yields none, even if an id occurs earlier in it. */
  lemma LastWordDecides(title: string, word: string)
    requires ' ' !in word && !IsNotionId(word)
    ensures ExtractNotionId(title + " " + word) == None
  {
    assert title + " " + word == title + [' '] + word;
    RSplitOnceOf(title, ' ', word);
  }

  /** A markdown file's id is its last word, whatever that word is: file ids are not validated. */
  lemma FileIdUnchecked(title: string, word: string)
    requires ' ' !in word
    ensures FileNoteId(title + " " + word + ".md") == Some(word)
  {
    var name := title + " " + word + ".md";
    assert name[..|name| - 3] == title + [' '] + word;
    assert EndsWith(name, ".md");
    RSplitOnceOf(title, ' ', word);
  }

  /** The ids named by the components of a path, outermost first. */
  function PathIds(path: seq<string>): seq<string> {
    if path == [] then []
    else
      var last := ExtractNotionId(path[|path| - 1]);
      PathIds(path[..|path| - 1]) + (if last.Some? then [last.value] else [])
  }

  predicate IsSuffix(a: seq<string>, b: seq<string>) {
    |a| <= |b| && b[|b| - |a|..] == a
  }

  /**
   * `ensure_parent_in_db` writes only rows for ids named along the path, outermost first (every
   * ancestor before its descendants), ending with the directory's own id when it writes at all.
   */
  lemma {:induction false} EnsureParentWritesAncestorsFirst(t: Tables, path: seq<string>)
    ensures var r := EnsureParent(t, path);
      t.writes <= r.1.writes && IsSuffix(r.1.writes[|t.writes|..], PathIds(path))
    decreases |path|
  {
    var r := EnsureParent(t, path);
    if path == [] || ExtractNotionId(path[|path| - 1]).None? || ExtractNotionId(path[|path| - 1]).value in t.pages {
      assert r.1 == t;
      SuffixOfEmpty(t.writes, PathIds(path));
    } else {
      var id := ExtractNotionId(path[|path| - 1]).value;
      var init := path[..|path| - 1];
      var up := EnsureParent(t, init);
      assert r.1.writes == up.1.writes + [id];
      assert PathIds(path) == PathIds(init) + [id];
      EnsureParentWritesAncestorsFirst(t, init);
      SuffixGrows(t.writes, up.1.writes, PathIds(init), id);
    }
  }

  /** Nothing written after `w` is a suffix of anything. */
  lemma SuffixOfEmpty(w: seq<string>, b: seq<string>)
    ensures w <= w && IsSuffix(w[|w|..], b)
  {
    assert w[|w|..] == [];
  }

  /** Writing one more id extends the written tail by that id. */
  lemma SuffixGrows(w: seq<string>, u: seq<string>, b: seq<string>, id: string)
    requires w <= u && IsSuffix(u[|w|..], b)
    ensures w <= u + [id] && IsSuffix((u + [id])[|w|..], b + [id])
  {
    var tail := u[|w|..];
    assert (u + [id])[|w|..] == tail + [id];
    assert (b + [id])[|b + [id]| - |tail + [id]|..] == b[|b| - |tail|..] + [id];
    assert (u + [id])[..|w|] == u[..|w|];
  }

  /** An id that is already stored is returned without any write. */
  lemma EnsureParentStoredNoWrite(t: Tables, path: seq<string>)
    requires path != [] && ExtractNotionId(path[|path| - 1]).Some?
    requires ExtractNotionId(path[|path| - 1]).value in t.pages
    ensures EnsureParent(t, path) == (ExtractNotionId(path[|path| - 1]), t)
  {
  }

  /** No row disappears, and a row with text is left exactly as it was. */
  ghost predicate KeepsTexts(t: Tables, u: Tables) {
    && t.pages.Keys <= u.pages.Keys
    && (forall k :: k in t.pages && HasText(t.pages[k]) ==> u.pages[k] == t.pages[k])
  }

  lemma {:induction false} IntegrateFilesKeepsTexts(t: Tables, parent: Option<string>, files: seq<MarkdownFile>)
    ensures KeepsTexts(t, IntegrateFiles(t, parent, files).1)
    decreases |files|
  {
    if files != [] {
      var first := IntegrateFile(t, parent, files[0]);
      IntegrateFileOutcome(t, parent, files[0]);
      IntegrateFilesKeepsTexts(first.1, parent, files[1..]);
    }
  }

  lemma IntegrateEntryKeepsTexts(t: Tables, e: ExportEntry)
    ensures KeepsTexts(t, IntegrateEntry(t, e).1)
  {
    if e.Directory? {
      var p := EntryParent(t, e.name);
      IntegrateFilesKeepsTexts(p.1, p.0, e.files);
    }
  }

  /** Integration never overwrites a page that has text, and never drops a row. */
  lemma {:induction false} IntegrateKeepsTexts(t: Tables, entries: seq<ExportEntry>)
    ensures KeepsTexts(t, Integrate(t, entries).1)
    decreases |entries|
  {
    if entries != [] {
      IntegrateEntryKeepsTexts(t, entries[0]);
      var first := IntegrateEntry(t, entries[0]);
      IntegrateKeepsTexts(first.1, entries[1..]);
    }
  }

  /** The file's note is stored with text, if the file names one and has text. */
  ghost predicate FileSettled(t: Tables, f: MarkdownFile) {
    FileNoteId(f.name).Some? && Trim(f.body) != [] ==>
      FileNoteId(f.name).value in t.pages && HasText(t.pages[FileNoteId(f.name).value])
  }

  ghost predicate EntrySettled(t: Tables, e: ExportEntry) {
    e.Directory? ==>
      && (ExtractNotionId(e.name).Some? ==> ExtractNotionId(e.name).value in t.pages)
      && (forall j :: 0 <= j < |e.files| ==> FileSettled(t, e.files[j]))
  }

  ghost predicate Settled(t: Tables, entries: seq<ExportEntry>) {
    forall i :: 0 <= i < |entries| ==> EntrySettled(t, entries[i])
  }

  lemma {:induction false} SettledFilesUnchanged(t: Tables, parent: Option<string>, files: seq<MarkdownFile>)
    requires forall j :: 0 <= j < |files| ==> FileSettled(t, files[j])
    ensures IntegrateFiles(t, parent, files) == (0, t)
    decreases |files|
  {
    if files != [] {
      assert FileSettled(t, files[0]);
      SettledFilesUnchanged(t, parent, files[1..]);
    }
  }

  lemma {:induction false} SettledUnchanged(t: Tables, entries: seq<ExportEntry>)
    requires Settled(t, entries)
    ensures Integrate(t, entries) == (0, t)
    decreases |entries|
  {
    if entries != [] {
      var e := entries[0];
      assert EntrySettled(t, e);
      if e.Directory? {
        SettledFilesUnchanged(t, EntryParent(t, e.name).0, e.files);
      }
      SettledUnchanged(t, entries[1..]);
    }
  }

  lemma FileSettledKept(t: Tables, u: Tables, f: MarkdownFile)
    requires KeepsTexts(t, u) && FileSettled(t, f)
    ensures FileSettled(u, f)
  {
  }

  /** A file that names a note and has text leaves that note stored with text. */
  lemma IntegrateFileSettles(t: Tables, parent: Option<string>, f: MarkdownFile)
    ensures FileSettled(IntegrateFile(t, parent, f).1, f)
  {
    var r := IntegrateFile(t, parent, f);
    IntegrateFileOutcome(t, parent, f);
    if FileNoteId(f.name).Some? && Trim(f.body) != [] {
      var id := FileNoteId(f.name).value;
      if r.0 == 1 {
        var content := Trim(f.body);
        TrimTrimmed(f.body);
        assert r.1.pages[id].content == Some(content);
        assert HasText(r.1.pages[id]);
      } else {
        assert r.1 == t;
      }
    }
  }

  lemma {:induction false} IntegrateFilesSettles(t: Tables, parent: Option<string>, files: seq<MarkdownFile>)
    ensures var u := IntegrateFiles(t, parent, files).1; forall j :: 0 <= j < |files| ==> FileSettled(u, files[j])
    decreases |files|
  {
    if files != [] {
      var first := IntegrateFile(t, parent, files[0]);
      var u := IntegrateFiles(first.1, parent, files[1..]).1;
      assert u == IntegrateFiles(t, parent, files).1;
      IntegrateFileSettles(t, parent, files[0]);
      IntegrateFilesKeepsTexts(first.1, parent, files[1..]);
      FileSettledKept(first.1, u, files[0]);
      IntegrateFilesSettles(first.1, parent, files[1..]);
      forall j | 1 <= j < |files| ensures FileSettled(u, files[j]) {
        assert files[j] == files[1..][j - 1];
      }
    }
  }

  lemma IntegrateEntrySettles(t: Tables, e: ExportEntry)
    ensures EntrySettled(IntegrateEntry(t, e).1, e)
  {
    if e.Directory? {
      var p := EntryParent(t, e.name);
      IntegrateFilesSettles(p.1, p.0, e.files);
      IntegrateFilesKeepsTexts(p.1, p.0, e.files);
    }
  }

  lemma SettledKept(t: Tables, u: Tables, entries: seq<ExportEntry>)
    requires KeepsTexts(t, u) && Settled(t, entries)
    ensures Settled(u, entries)
  {
    forall i | 0 <= i < |entries| ensures EntrySettled(u, entries[i]) {
      var e := entries[i];
      assert EntrySettled(t, e);
      if e.Directory? {
        forall j | 0 <= j < |e.files| ensures FileSettled(u, e.files[j]) {
          assert FileSettled(t, e.files[j]);
        }
      }
    }
  }

  lemma {:induction false} IntegrateSettles(t: Tables, entries: seq<ExportEntry>)
    ensures Settled(Integrate(t, entries).1, entries)
    decreases |entries|
  {
    if entries != [] {
      var first := IntegrateEntry(t, entries[0]);
      var u := Integrate(t, entries).1;
      IntegrateEntrySettles(t, entries[0]);
      IntegrateSettles(first.1, entries[1..]);
      IntegrateKeepsTexts(first.1, entries[1..]);
      SettledKept(first.1, u, [entries[0]]);
      assert EntrySettled(u, [entries[0]][0]);
      forall i | 0 <= i < |entries| ensures EntrySettled(u, entries[i]) {
        if i > 0 {
          assert entries[i] == entries[1..][i - 1];
        }
      }
    }
  }

  /** Integrating the same export again adds no note and writes nothing. */
  lemma IntegrateIdempotent(t: Tables, entries: seq<ExportEntry>)
    ensures var u := Integrate(t, entries).1; Integrate(u, entries) == (0, u)
  {
    IntegrateSettles(t, entries);
    SettledUnchanged(Integrate(t, entries).1, entries);
  }
}
