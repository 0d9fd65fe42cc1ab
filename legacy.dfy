/**
 * The older stand-alone crawler (`get_notion_metadata.py`): the same depth-first walk, but with a
 * four-column table and no content, no error log and no child skip. Metadata always comes from the
 * page endpoint and a failure to read it escapes; an inaccessible database is passed over without a
 * write, and anything raised while querying or crawling a database's rows is swallowed.
 */
module LegacyCrawler {
  import opened Wrappers
  import opened Discovery
  import opened Workspace

  /** A row of the legacy `pages` table. */
  datatype LegacyRow = LegacyRow(parentId: Option<string>, createdTime: Option<string>, lastEditedTime: Option<string>)

  /** The legacy table, plus the ids in the order their rows were written. */
  datatype LegacyTables = LegacyTables(pages: map<string, LegacyRow>, writes: seq<string>)

  /** `save_page_to_db`: a plain `INSERT OR REPLACE` of all four columns. */
  function LegacySave(t: LegacyTables, id: string, parent: Option<string>, created: Option<string>,
                      lastEdited: Option<string>): (r: LegacyTables)
    ensures r.pages.Keys == t.pages.Keys + {id}
    ensures forall k :: k in t.pages && k != id ==> r.pages[k] == t.pages[k]
    ensures r.writes == t.writes + [id]
  {
    LegacyTables(t.pages[id := LegacyRow(parent, created, lastEdited)], t.writes + [id])
  }

  /** A second save of the same id replaces the first one's row entirely. */
  lemma LegacySaveReplaces(t: LegacyTables, id: string, p1: Option<string>, c1: Option<string>, e1: Option<string>,
                           p2: Option<string>, c2: Option<string>, e2: Option<string>)
    ensures LegacySave(LegacySave(t, id, p1, c1, e1), id, p2, c2, e2).pages == LegacySave(t, id, p2, c2, e2).pages
    ensures LegacySave(t, id, p2, c2, e2).pages[id] == LegacyRow(p2, c2, e2)
  {
  }

  /** `get_page_metadata` here reads the page endpoint only. */
  function PageMetadata(ws: Remote, id: string): Result<Meta, string> {
    Node(ws, id).pageMeta
  }

  /** `crawl_page_tree(page_id, parent_id)` on values. */
  function CrawlTree(ws: Remote, id: string, parent: Option<string>, t: LegacyTables): (r: (Outcome, LegacyTables))
    requires WellFounded(ws)
    ensures PageMetadata(ws, id).Failure? ==> r.0.Raised?
    decreases Rank(ws, id), 2, 0
  {
    match PageMetadata(ws, id)
    case Failure(e) => (Raised(e), t)
    case Success(meta) =>
      if id in t.pages && t.pages[id].lastEditedTime == meta.lastEditedTime then (Completed, t)
      else
        var t1 := LegacySave(t, id, parent, meta.createdTime, meta.lastEditedTime);
        match Node(ws, id).children
        case Failure(e) => (Raised(e), t1)
        case Success(listing) =>
          var kids := PageKids(ws, id, listing);
          var r := CrawlEach(ws, id, kids.0, t1);
          if r.0.Raised? then r else (Completed, CrawlDatabaseRows(ws, id, kids.1, r.1))
  }

  /** Crawl every id under `container`, in order; an exception ends the loop and escapes. */
  function CrawlEach(ws: Remote, container: string, ids: seq<string>, t: LegacyTables): (Outcome, LegacyTables)
    requires WellFounded(ws)
    requires forall x :: x in ids ==> Rank(ws, x) < Rank(ws, container)
    decreases Rank(ws, container), 1, |ids|
  {
    if ids == [] then (Completed, t)
    else
      var r := CrawlTree(ws, ids[0], Some(container), t);
      if r.0.Raised? then r else CrawlEach(ws, container, ids[1..], r.1)
  }

  /** The loop over child databases: invalid ones are passed over, row failures are swallowed. */
  function CrawlDatabaseRows(ws: Remote, page: string, dbs: seq<string>, t: LegacyTables): LegacyTables
    requires WellFounded(ws)
    requires forall x :: x in dbs ==> Rank(ws, x) < Rank(ws, page)
    decreases Rank(ws, page), 1, |dbs|
  {
    if dbs == [] then t
    else
      var db := dbs[0];
      var t1 :=
        if !IsValidDatabaseId(ws, db) then t
        else match Node(ws, db).rows
          case Failure(_) => t
          case Success(_) => CrawlEach(ws, db, RowsOf(ws, db), t).1;
      CrawlDatabaseRows(ws, page, dbs[1..], t1)
  }

  /** `main`: detect the root's type, then crawl a page root, or every row of a database root. */
  function Main(ws: Remote, root: string, t: LegacyTables): (r: (Outcome, LegacyTables))
    requires WellFounded(ws)
    ensures r.0.Completed? ==> DetectIdType(ws, root).Success?
    ensures DetectIdType(ws, root) == Success(PageId) && PageMetadata(ws, root).Failure? ==> r.0.Raised?
  {
    match DetectIdType(ws, root)
    case Failure(e) => (Raised(e), t)
    case Success(PageId) => CrawlTree(ws, root, None, t)
    case Success(DatabaseId) =>
      match Node(ws, root).rows
      case Failure(e) => (Raised(e), t)
      case Success(_) =>
        CrawlEach(ws, root, RowsOf(ws, root), t)
  }

  /** The legacy connection. */
  class LegacyStore {
    var pages: map<string, LegacyRow>
    ghost var writes: seq<string>

    constructor ()
      ensures Contents() == LegacyTables(map[], [])
    {
      pages, writes := map[], [];
    }

    ghost function Contents(): LegacyTables
      reads this
    {
      LegacyTables(pages, writes)
    }

    /** `get_page_from_db`. */
    method GetPage(id: string) returns (row: Option<LegacyRow>)
      ensures row.Some? <==> id in pages
      ensures row.Some? ==> row.value == pages[id]
    {
      row := if id in pages then Some(pages[id]) else None;
    }

    /** `save_page_to_db`. */
    method SavePage(id: string, parent: Option<string>, created: Option<string>, lastEdited: Option<string>)
      modifies this
      ensures Contents() == LegacySave(old(Contents()), id, parent, created, lastEdited)
    {
      pages := pages[id := LegacyRow(parent, created, lastEdited)];
      writes := writes + [id];
    }
  }

  /** `crawl_page_tree`. */
  method CrawlPageTree(store: LegacyStore, ws: Remote, id: string, parent: Option<string>)
    returns (outcome: Outcome)
    requires WellFounded(ws)
    modifies store
    ensures (outcome, store.Contents()) == CrawlTree(ws, id, parent, old(store.Contents()))
    decreases Rank(ws, id), 2, 0
  {
    var stored := store.GetPage(id);
    var meta := PageMetadata(ws, id);
    if meta.Failure? {
      return Raised(meta.error);
    }
    if stored.Some? && stored.value.lastEditedTime == meta.value.lastEditedTime {
      return Completed;
    }
    store.SavePage(id, parent, meta.value.createdTime, meta.value.lastEditedTime);
    var listing := Node(ws, id).children;
    if listing.Failure? {
      return Raised(listing.error);
    }
    assert id in ws && NodeWellFounded(ws, id);
    var childPages, childDatabases, requests := ListChildren(listing.value);
    ghost var kids := PageKids(ws, id, listing.value);
    outcome := CrawlChildPages(store, ws, id, ChildIds(childPages));
    if outcome.Completed? {
      CrawlChildDatabases(store, ws, id, ChildIds(childDatabases));
    }
  }

  /** The `for child in child_pages` loop, and the `for row_id in row_ids` loops. */
  method CrawlChildPages(store: LegacyStore, ws: Remote, container: string, ids: seq<string>)
    returns (outcome: Outcome)
    requires WellFounded(ws)
    requires forall x :: x in ids ==> Rank(ws, x) < Rank(ws, container)
    modifies store
    ensures (outcome, store.Contents()) == CrawlEach(ws, container, ids, old(store.Contents()))
    decreases Rank(ws, container), 1, |ids|
  {
    var i := 0;
    while i < |ids|
      invariant 0 <= i <= |ids|
      invariant CrawlEach(ws, container, ids, old(store.Contents()))
             == CrawlEach(ws, container, ids[i..], store.Contents())
    {
      assert ids[i..][1..] == ids[i + 1..];
      outcome := CrawlPageTree(store, ws, ids[i], Some(container));
      if outcome.Raised? {
        return;
      }
      i := i + 1;
    }
    return Completed;
  }

  /** The `for db in child_databases` loop. */
  method CrawlChildDatabases(store: LegacyStore, ws: Remote, page: string, dbs: seq<string>)
    requires WellFounded(ws)
    requires forall x :: x in dbs ==> Rank(ws, x) < Rank(ws, page)
    modifies store
    ensures store.Contents() == CrawlDatabaseRows(ws, page, dbs, old(store.Contents()))
    decreases Rank(ws, page), 1, |dbs|
  {
    var i := 0;
    while i < |dbs|
      invariant 0 <= i <= |dbs|
      invariant CrawlDatabaseRows(ws, page, dbs, old(store.Contents()))
             == CrawlDatabaseRows(ws, page, dbs[i..], store.Contents())
    {
      assert dbs[i..][1..] == dbs[i + 1..];
      var db := dbs[i];
      i := i + 1;
      if !IsValidDatabaseId(ws, db) {
        continue;
      }
      var query := Node(ws, db).rows;
      if query.Failure? {
        continue;
      }
      assert db in ws && NodeWellFounded(ws, db);
      var rowIds, requests := ListDatabaseRows(query.value);
      var ignored := CrawlChildPages(store, ws, db, rowIds);
    }
  }

  /** `main`. */
  method RunMain(store: LegacyStore, ws: Remote, root: string) returns (outcome: Outcome)
    requires WellFounded(ws)
    modifies store
    ensures (outcome, store.Contents()) == Main(ws, root, old(store.Contents()))
  {
    var kind := DetectIdType(ws, root);
    if kind.Failure? {
      return Raised(kind.error);
    }
    if kind.value == PageId {
      outcome := CrawlPageTree(store, ws, root, None);
    } else {
      var query := Node(ws, root).rows;
      if query.Failure? {
        return Raised(query.error);
      }
      assert root in ws && NodeWellFounded(ws, root);
      var rowIds, requests := ListDatabaseRows(query.value);
      outcome := CrawlChildPages(store, ws, root, rowIds);
    }
  }
}
