/**
 * The incremental metadata crawl (`crawl_metadata`): a depth-first walk of the workspace that
 * writes one row per visited page, skips nodes whose stored `last_edited_time` is unchanged
 * (unless resuming), skips children already stored under the current container, and records
 * placeholders and crawl errors for what it cannot read.
 *
 * `Visit` and its companions state the crawl on values; the methods of the same shape perform it
 * through a `Store` and are proved to end in exactly the state and outcome the functions give.
 */
module Crawler {
  import opened Wrappers
  import opened Discovery
  import opened PageStore
  import opened Workspace

  const InaccessibleDatabaseMessage := "Not accessible or cross-workspace DB"

  /** The skip rule for children, databases and rows alike: already stored under this container. */
  predicate StoredUnder(t: Tables, id: string, container: string) {
    id in t.pages && t.pages[id].parentId == Some(container)
  }

  /** `crawl_metadata(page_id, parent_id, resume_incomplete)` on values. */
  function Visit(ws: Remote, id: string, parent: Option<string>, resume: bool, t: Tables): (r: (Outcome, Tables))
    requires WellFounded(ws)
    ensures FetchMetadata(ws, id).Failure? ==> r.0 == Completed
    decreases Rank(ws, id), 2, 0
  {
    match FetchMetadata(ws, id)
    case Failure(e) =>
      var t1 := LogError(t, CrawlError(id, parent, e, Placeholder, Placeholder));
      (Completed, Save(t1, id, parent, Some(Placeholder), Some(Placeholder), None))
    case Success(meta) =>
      var stored := Lookup(t, id);
      if !resume && stored.Some? && stored.value.lastEditedTime == meta.lastEditedTime then (Completed, t)
      else
        var content := if stored.Some? then stored.value.content else None;
        var t1 := Save(t, id, parent, meta.createdTime, meta.lastEditedTime, content);
        match Node(ws, id).children
        case Failure(e) => (Raised(e), t1)
        case Success(listing) =>
          var kids := PageKids(ws, id, listing);
          var r := VisitChildren(ws, id, kids.0, resume, t1);
          if r.0.Raised? then r else (Completed, VisitDatabases(ws, id, kids.1, resume, r.1))
  }

  /** The loop over child pages (or over a database's rows): visit each one not stored under `container`. */
  function VisitChildren(ws: Remote, container: string, ids: seq<string>, resume: bool, t: Tables): (r: (Outcome, Tables))
    requires WellFounded(ws)
    requires forall x :: x in ids ==> Rank(ws, x) < Rank(ws, container)
    ensures (forall x :: x in ids ==> StoredUnder(t, x, container)) ==> r == (Completed, t)
    decreases Rank(ws, container), 1, |ids|
  {
    if ids == [] then (Completed, t)
    else if StoredUnder(t, ids[0], container) then VisitChildren(ws, container, ids[1..], resume, t)
    else
      var r := Visit(ws, ids[0], Some(container), resume, t);
      if r.0.Raised? then r else VisitChildren(ws, container, ids[1..], resume, r.1)
  }

  /** The loop over child databases; nothing escapes it. */
  function VisitDatabases(ws: Remote, page: string, dbs: seq<string>, resume: bool, t: Tables): (r: Tables)
    requires WellFounded(ws)
    requires forall x :: x in dbs ==> Rank(ws, x) < Rank(ws, page)
    ensures (forall x :: x in dbs ==> StoredUnder(t, x, page)) ==> r == t
    decreases Rank(ws, page), 1, |dbs|
  {
    if dbs == [] then t
    else
      var t1 := if StoredUnder(t, dbs[0], page) then t else VisitDatabase(ws, page, dbs[0], resume, t);
      VisitDatabases(ws, page, dbs[1..], resume, t1)
  }

  /** What one database's placeholder and error look like. */
  function RecordDatabaseFailure(ws: Remote, page: string, db: string, message: string, t: Tables): Tables {
    var t1 := Save(t, db, Some(page), Some(Placeholder), Some(Placeholder), None);
    LogError(t1, CrawlError(db, Some(page), message, Node(ws, db).headTitle, Node(ws, db).headRow))
  }

  /** One child database: inaccessible, or its rows crawled under a catch-all handler. */
  function VisitDatabase(ws: Remote, page: string, db: string, resume: bool, t: Tables): (r: Tables)
    requires WellFounded(ws)
    requires Rank(ws, db) < Rank(ws, page)
    ensures (&& IsValidDatabaseId(ws, db) && Node(ws, db).rows.Success?
             && forall x :: x in RowsOf(ws, db) ==> StoredUnder(t, x, db)) ==> r == t
    decreases Rank(ws, page), 0, 0
  {
    if !IsValidDatabaseId(ws, db) then RecordDatabaseFailure(ws, page, db, InaccessibleDatabaseMessage, t)
    else
      var r :=
        match Node(ws, db).rows
        case Failure(e) => (Raised(e), t)
        case Success(_) => VisitChildren(ws, db, RowsOf(ws, db), resume, t);
      if r.0.Raised? then RecordDatabaseFailure(ws, page, db, r.0.message, r.1) else r.1
  }

  /** `crawl_metadata`. */
  method CrawlMetadata(store: Store, ws: Remote, id: string, parent: Option<string>, resume: bool)
    returns (outcome: Outcome)
    requires WellFounded(ws)
    modifies store
    ensures (outcome, store.Contents()) == Visit(ws, id, parent, resume, old(store.Contents()))
    decreases Rank(ws, id), 2, 0
  {
    var meta := FetchMetadata(ws, id);
    if meta.Failure? {
      store.SaveCrawlError(CrawlError(id, parent, meta.error, Placeholder, Placeholder));
      store.SavePage(id, parent, Some(Placeholder), Some(Placeholder), None);
      return Completed;
    }
    var stored := store.GetPage(id);
    if !resume && stored.Some? && stored.value.lastEditedTime == meta.value.lastEditedTime {
      return Completed;
    }
    var content := if stored.Some? then stored.value.content else None;
    store.SavePage(id, parent, meta.value.createdTime, meta.value.lastEditedTime, content);
    var listing := Node(ws, id).children;
    if listing.Failure? {
      return Raised(listing.error);
    }
    assert id in ws && NodeWellFounded(ws, id);
    var childPages, childDatabases, requests := ListChildren(listing.value);
    ghost var kids := PageKids(ws, id, listing.value);
    outcome := CrawlChildren(store, ws, id, ChildIds(childPages), resume);
    if outcome.Completed? {
      CrawlDatabases(store, ws, id, ChildIds(childDatabases), resume);
    }
  }

  /** The `for child in child_pages` loop, and the `for row_id in row_ids` loop. */
  method CrawlChildren(store: Store, ws: Remote, container: string, ids: seq<string>, resume: bool)
    returns (outcome: Outcome)
    requires WellFounded(ws)
    requires forall x :: x in ids ==> Rank(ws, x) < Rank(ws, container)
    modifies store
    ensures outcome == VisitChildren(ws, container, ids, resume, old(store.Contents())).0
    ensures store.Contents() == VisitChildren(ws, container, ids, resume, old(store.Contents())).1
    decreases Rank(ws, container), 1, |ids|
  {
    ghost var total := VisitChildren(ws, container, ids, resume, store.Contents());
    var i := 0;
    assert ids[i..] == ids;
    while i < |ids|
      invariant 0 <= i <= |ids|
      invariant forall x :: x in ids[i..] ==> Rank(ws, x) < Rank(ws, container)
      invariant total.0 == VisitChildren(ws, container, ids[i..], resume, store.Contents()).0
      invariant total.1 == VisitChildren(ws, container, ids[i..], resume, store.Contents()).1
    {
      outcome := CrawlChild(store, ws, container, ids, i, resume);
      if outcome.Raised? {
        return;
      }
      i := i + 1;
    }
    assert ids[i..] == [];
    return Completed;
  }

  /** One pass of that loop: skip the child at position `i`, or crawl it. */
  method CrawlChild(store: Store, ws: Remote, container: string, ids: seq<string>, i: nat, resume: bool)
    returns (outcome: Outcome)
    requires WellFounded(ws)
    requires forall x :: x in ids ==> Rank(ws, x) < Rank(ws, container)
    requires i < |ids|
    modifies store
    ensures forall x :: x in ids[i + 1..] ==> Rank(ws, x) < Rank(ws, container)
    ensures outcome.Raised? ==>
              && outcome == VisitChildren(ws, container, ids[i..], resume, old(store.Contents())).0
              && store.Contents() == VisitChildren(ws, container, ids[i..], resume, old(store.Contents())).1
    ensures !outcome.Raised? ==>
              && VisitChildren(ws, container, ids[i..], resume, old(store.Contents())).0
                 == VisitChildren(ws, container, ids[i + 1..], resume, store.Contents()).0
              && VisitChildren(ws, container, ids[i..], resume, old(store.Contents())).1
                 == VisitChildren(ws, container, ids[i + 1..], resume, store.Contents()).1
    decreases Rank(ws, container), 1, 0
  {
    ghost var t := store.Contents();
    VisitChildrenStep(ws, container, ids, i, resume, t);
    var stored := store.GetPage(ids[i]);
    if stored.Some? && stored.value.parentId == Some(container) {
      assert StoredUnder(t, ids[i], container);
      return Completed;
    }
    assert !StoredUnder(t, ids[i], container);
    outcome := CrawlMetadata(store, ws, ids[i], Some(container), resume);
    ghost var r := Visit(ws, ids[i], Some(container), resume, t);
    assert outcome == r.0 && store.Contents() == r.1;
  }

  /** The child at position `i` decides the rest of the loop: skipped, raising, or visited. */
  lemma VisitChildrenStep(ws: Remote, container: string, ids: seq<string>, i: nat, resume: bool, t: Tables)
    requires WellFounded(ws)
    requires forall x :: x in ids ==> Rank(ws, x) < Rank(ws, container)
    requires i < |ids|
    ensures forall x :: x in ids[i + 1..] ==> Rank(ws, x) < Rank(ws, container)
    ensures var out := VisitChildren(ws, container, ids[i..], resume, t);
      && (StoredUnder(t, ids[i], container) ==>
            out.0 == VisitChildren(ws, container, ids[i + 1..], resume, t).0
            && out.1 == VisitChildren(ws, container, ids[i + 1..], resume, t).1)
      && (!StoredUnder(t, ids[i], container) ==>
            var r := Visit(ws, ids[i], Some(container), resume, t);
            && (r.0.Raised? ==> out.0 == r.0 && out.1 == r.1)
            && (!r.0.Raised? ==>
                  out.0 == VisitChildren(ws, container, ids[i + 1..], resume, r.1).0
                  && out.1 == VisitChildren(ws, container, ids[i + 1..], resume, r.1).1))
  {
    assert ids[i..][0] == ids[i] && ids[i..][1..] == ids[i + 1..];
    assert forall x :: x in ids[i + 1..] ==> x in ids;
  }

  /** The `for db in child_databases` loop. */
  method CrawlDatabases(store: Store, ws: Remote, page: string, dbs: seq<string>, resume: bool)
    requires WellFounded(ws)
    requires forall x :: x in dbs ==> Rank(ws, x) < Rank(ws, page)
    modifies store
    ensures store.Contents() == VisitDatabases(ws, page, dbs, resume, old(store.Contents()))
    decreases Rank(ws, page), 1, |dbs|
  {
    var i := 0;
    while i < |dbs|
      invariant 0 <= i <= |dbs|
      invariant VisitDatabases(ws, page, dbs, resume, old(store.Contents()))
             == VisitDatabases(ws, page, dbs[i..], resume, store.Contents())
    {
      assert dbs[i..][1..] == dbs[i + 1..];
      var stored := store.GetPage(dbs[i]);
      if !(stored.Some? && stored.value.parentId == Some(page)) {
        CrawlDatabase(store, ws, page, dbs[i], resume);
      }
      i := i + 1;
    }
  }

  /** The body of that loop for a database that is not skipped. */
  method CrawlDatabase(store: Store, ws: Remote, page: string, db: string, resume: bool)
    requires WellFounded(ws)
    requires Rank(ws, db) < Rank(ws, page)
    modifies store
    ensures store.Contents() == VisitDatabase(ws, page, db, resume, old(store.Contents()))
    decreases Rank(ws, page), 0, 0
  {
    var node := Node(ws, db);
    if !IsValidDatabaseId(ws, db) {
      store.SavePage(db, Some(page), Some(Placeholder), Some(Placeholder), None);
      store.SaveCrawlError(CrawlError(db, Some(page), InaccessibleDatabaseMessage, node.headTitle, node.headRow));
      return;
    }
    var outcome: Outcome;
    if node.rows.Failure? {
      outcome := Raised(node.rows.error);
    } else {
      assert db in ws && NodeWellFounded(ws, db);
      var rowIds, requests := ListDatabaseRows(node.rows.value);
      outcome := CrawlChildren(store, ws, db, rowIds, resume);
    }
    if outcome.Raised? {
      store.SavePage(db, Some(page), Some(Placeholder), Some(Placeholder), None);
      store.SaveCrawlError(CrawlError(db, Some(page), outcome.message, node.headTitle, node.headRow));
    }
  }
}
