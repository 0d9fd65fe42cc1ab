/**
 * The read side of the GUI backend (`gui_backend.py`): the notes list, one note by id, and the
 * parent-to-children grouping. The `pages` table is given as its rows in the order SQLite
 * returns them.
 */
module Backend {
  import opened Wrappers

  /** One row of `pages`: id, parent id, created time, last edited time, content. */
  type PagesRow = (string, Option<string>, Option<string>, Option<string>, Option<string>)

  /** The `Note` response model. */
  datatype Note = Note(id: string, parentId: Option<string>, createdTime: Option<string>,
                       lastEditedTime: Option<string>, content: Option<string>)

  /** An HTTP error response: status code and detail. */
  datatype HttpError = HttpError(status: nat, detail: string)

  const NoteNotFound := HttpError(404, "Note not found")

  /** The row's columns, by position, as a `Note`. */
  function ToNote(row: PagesRow): (n: Note)
    ensures n.id == row.0 && n.parentId == row.1 && n.createdTime == row.2
    ensures n.lastEditedTime == row.3 && n.content == row.4
  {
    Note(row.0, row.1, row.2, row.3, row.4)
  }

  /** `GET /notes`: one note per row, in row order. */
  function GetNotes(rows: seq<PagesRow>): (notes: seq<Note>)
    ensures |notes| == |rows|
    ensures forall i :: 0 <= i < |rows| ==> notes[i] == ToNote(rows[i])
  {
    seq(|rows|, i requires 0 <= i < |rows| => ToNote(rows[i]))
  }

  /** `GET /note/{note_id}`: the first row with that id, or a 404. */
  function GetNote(rows: seq<PagesRow>, noteId: string): (r: Result<Note, HttpError>)
    ensures r.Failure? <==> forall i :: 0 <= i < |rows| ==> rows[i].0 != noteId
    ensures r.Failure? ==> r.error == NoteNotFound
    ensures r.Success? ==> exists i :: 0 <= i < |rows| && rows[i].0 == noteId && r.value == ToNote(rows[i])
                                      && forall j :: 0 <= j < i ==> rows[j].0 != noteId
    decreases |rows|
  {
    if rows == [] then Failure(NoteNotFound)
    else if rows[0].0 == noteId then Success(ToNote(rows[0]))
    else
      var r := GetNote(rows[1..], noteId);
      assert forall i :: 1 <= i < |rows| ==> rows[i] == rows[1..][i - 1];
      if r.Success? then
        var k :| 0 <= k < |rows[1..]| && rows[1..][k].0 == noteId && r.value == ToNote(rows[1..][k])
                 && forall j :: 0 <= j < k ==> rows[1..][j].0 != noteId;
        assert rows[k + 1] == rows[1..][k];
        r
      else r
  }

  /** The one note answers what the list shows for that id. */
  lemma GetNoteInNotes(rows: seq<PagesRow>, noteId: string)
    requires GetNote(rows, noteId).Success?
    ensures GetNote(rows, noteId).value in GetNotes(rows)
    ensures GetNote(rows, noteId).value.id == noteId
  {
    var i :| 0 <= i < |rows| && rows[i].0 == noteId && GetNote(rows, noteId).value == ToNote(rows[i])
             && forall j :: 0 <= j < i ==> rows[j].0 != noteId;
    assert GetNotes(rows)[i] == ToNote(rows[i]);
  }

  /** The ids stored under `parent`, in row order. */
  function ChildrenOf(rows: seq<(string, Option<string>)>, parent: Option<string>): seq<string> {
    if rows == [] then []
    else
      var last := rows[|rows| - 1];
      ChildrenOf(rows[..|rows| - 1], parent) + (if last.1 == parent then [last.0] else [])
  }

  /** The parent ids that occur, `None` for a root. */
  function Parents(rows: seq<(string, Option<string>)>): set<Option<string>> {
    if rows == [] then {} else Parents(rows[..|rows| - 1]) + {rows[|rows| - 1].1}
  }

  /** The parents are exactly the parent ids some row carries. */
  lemma {:induction false} ParentsAreRowParents(rows: seq<(string, Option<string>)>)
    ensures forall p :: p in Parents(rows) <==> exists i :: 0 <= i < |rows| && rows[i].1 == p
  {
    if rows != [] {
      var init := rows[..|rows| - 1];
      ParentsAreRowParents(init);
      assert forall i :: 0 <= i < |init| ==> init[i] == rows[i];
    }
  }

  /** `GET /hierarchy`: each row's id appended to the list of its parent. */
  method GetHierarchy(rows: seq<(string, Option<string>)>) returns (tree: map<Option<string>, seq<string>>)
    ensures tree.Keys == Parents(rows)
    ensures forall p :: p in tree ==> tree[p] == ChildrenOf(rows, p)
  {
    tree := map[];
    var i := 0;
    while i < |rows|
      invariant 0 <= i <= |rows|
      invariant tree.Keys == Parents(rows[..i])
      invariant forall p :: p in tree ==> tree[p] == ChildrenOf(rows[..i], p)
    {
      var (id, parentId) := rows[i];
      HierarchyStep(rows, i);
      assert parentId !in tree ==> ChildrenOf(rows[..i], parentId) == [] by {
        if parentId !in tree && ChildrenOf(rows[..i], parentId) != [] {
          ChildrenHaveParent(rows[..i], parentId);
        }
      }
      var siblings := if parentId in tree then tree[parentId] else [];
      tree := tree[parentId := siblings + [id]];
      i := i + 1;
    }
    assert rows[..|rows|] == rows;
  }

  /** Adding row `i` adds its parent to the keys and its id to that parent's list only. */
  lemma HierarchyStep(rows: seq<(string, Option<string>)>, i: nat)
    requires i < |rows|
    ensures Parents(rows[..i + 1]) == Parents(rows[..i]) + {rows[i].1}
    ensures ChildrenOf(rows[..i + 1], rows[i].1) == ChildrenOf(rows[..i], rows[i].1) + [rows[i].0]
    ensures forall p :: p != rows[i].1 ==> ChildrenOf(rows[..i + 1], p) == ChildrenOf(rows[..i], p)
  {
    assert rows[..i + 1][..i] == rows[..i];
  }

  lemma {:induction false} ChildrenHaveParent(rows: seq<(string, Option<string>)>, parent: Option<string>)
    requires ChildrenOf(rows, parent) != []
    ensures parent in Parents(rows)
  {
    var init := rows[..|rows| - 1];
    if rows[|rows| - 1].1 != parent {
      ChildrenHaveParent(init, parent);
    }
  }

  /**
   * Every row is listed exactly once, under its own parent: the number of times an id is listed
   * under `parent` is the number of rows pairing that id with that parent.
   */
  lemma {:induction false} EachRowListedOnce(rows: seq<(string, Option<string>)>, id: string, parent: Option<string>)
    ensures multiset(ChildrenOf(rows, parent))[id] == multiset(rows)[(id, parent)]
  {
    if rows != [] {
      var init := rows[..|rows| - 1];
      var last := rows[|rows| - 1];
      var extra := if last.1 == parent then [last.0] else [];
      assert ChildrenOf(rows, parent) == ChildrenOf(init, parent) + extra;
      assert multiset(ChildrenOf(rows, parent)) == multiset(ChildrenOf(init, parent)) + multiset(extra);
      assert rows == init + [last];
      assert multiset(rows) == multiset(init) + multiset{last};
      EachRowListedOnce(init, id, parent);
    }
  }

  /** A key is listed exactly when some row has it as parent, and then its list is not empty. */
  lemma HierarchyKeysHaveChildren(rows: seq<(string, Option<string>)>, parent: Option<string>)
    ensures parent in Parents(rows) <==> ChildrenOf(rows, parent) != []
  {
    ParentsAreRowParents(rows);
    if parent in Parents(rows) {
      var i :| 0 <= i < |rows| && rows[i].1 == parent;
      EachRowListedOnce(rows, rows[i].0, parent);
      assert rows[i] in multiset(rows);
    } else if ChildrenOf(rows, parent) != [] {
      ChildrenHaveParent(rows, parent);
    }
  }
}
