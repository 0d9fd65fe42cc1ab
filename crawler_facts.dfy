/**
 * What the incremental crawl guarantees about the store: it never alters exported content, only
 * appends to the error log, writes a node's row before anything beneath it, never touches a row
 * ranked above the node it was called on, and a second normal-mode run is a no-op.
 */
module CrawlerFacts {
  import opened Wrappers
  import opened Discovery
  import opened PageStore
  import opened Workspace
  import opened Crawler

  /**
   * `u` is `t` after some crawling: no row disappears, stored content is untouched, new rows have
   * no content, and both the error log and the write order only grow at the end.
   */
  ghost predicate Extends(t: Tables, u: Tables) {
    && t.pages.Keys <= u.pages.Keys
    && (forall k :: k in t.pages ==> u.pages[k].content == t.pages[k].content)
    && (forall k :: k in u.pages && k !in t.pages ==> u.pages[k].content.None?)
    && t.errors <= u.errors
    && t.writes <= u.writes
  }

  /** No row of rank `bound` or more differs between `t` and `u`. */
  ghost predicate SameFrom(ws: Remote, t: Tables, u: Tables, bound: nat) {
    forall k :: Rank(ws, k) >= bound ==> Lookup(t, k) == Lookup(u, k)
  }

  lemma ExtendsTransitive(t: Tables, u: Tables, v: Tables)
    requires Extends(t, u) && Extends(u, v)
    ensures Extends(t, v)
  {
  }

  /** Saving a row with the content it already has (or none for a new row) extends the tables. */
  lemma SaveExtends(t: Tables, id: string, parent: Option<string>, created: Option<string>,
                    lastEdited: Option<string>, content: Option<string>)
    requires content.None? || (id in t.pages && content == t.pages[id].content)
    ensures Extends(t, Save(t, id, parent, created, lastEdited, content))
  {
  }

  lemma SameFromTransitive(ws: Remote, t: Tables, u: Tables, v: Tables, b1: nat, b2: nat, b: nat)
    requires SameFrom(ws, t, u, b1) && SameFrom(ws, u, v, b2) && b1 <= b && b2 <= b
    ensures SameFrom(ws, t, v, b)
  {
  }

  /** A save only touches the saved row. */
  lemma SaveSameFrom(ws: Remote, t: Tables, id: string, parent: Option<string>, created: Option<string>,
                     lastEdited: Option<string>, content: Option<string>)
    ensures SameFrom(ws, t, Save(t, id, parent, created, lastEdited, content), Rank(ws, id) + 1)
  {
  }

  lemma RecordDatabaseFailureExtends(ws: Remote, page: string, db: string, message: string, t: Tables)
    ensures Extends(t, RecordDatabaseFailure(ws, page, db, message, t))
  {
    SaveExtends(t, db, Some(page), Some(Placeholder), Some(Placeholder), None);
  }

  /** A visit extends the tables and leaves every row ranked above the visited node alone. */
  lemma {:induction false} VisitFacts(ws: Remote, id: string, parent: Option<string>, resume: bool, t: Tables)
    requires WellFounded(ws)
    ensures Extends(t, Visit(ws, id, parent, resume, t).1)
    ensures SameFrom(ws, t, Visit(ws, id, parent, resume, t).1, Rank(ws, id) + 1)
    decreases Rank(ws, id), 2, 2
  {
    var u := Visit(ws, id, parent, resume, t).1;
    match FetchMetadata(ws, id)
    case Failure(e) =>
      var t1 := LogError(t, CrawlError(id, parent, e, Placeholder, Placeholder));
      assert u == Save(t1, id, parent, Some(Placeholder), Some(Placeholder), None);
      UnreadableNodeFacts(ws, t, id, parent, e);
    case Success(meta) =>
      var stored := Lookup(t, id);
      if !resume && stored.Some? && stored.value.lastEditedTime == meta.lastEditedTime {
        assert u == t;
      } else {
        SavedNodeFacts(ws, id, parent, resume, t);
      }
  }

  /** The visit of a node whose metadata was fetched and which is not skipped. */
  lemma {:induction false} SavedNodeFacts(ws: Remote, id: string, parent: Option<string>, resume: bool, t: Tables)
    requires WellFounded(ws) && FetchMetadata(ws, id).Success?
    requires resume || id !in t.pages
          || t.pages[id].lastEditedTime != FetchMetadata(ws, id).value.lastEditedTime
    ensures Extends(t, Visit(ws, id, parent, resume, t).1)
    ensures SameFrom(ws, t, Visit(ws, id, parent, resume, t).1, Rank(ws, id) + 1)
    decreases Rank(ws, id), 2, 1
  {
    var meta := FetchMetadata(ws, id).value;
    var u := Visit(ws, id, parent, resume, t).1;
    var stored := Lookup(t, id);
    var content := if stored.Some? then stored.value.content else None;
    var t1 := Save(t, id, parent, meta.createdTime, meta.lastEditedTime, content);
    SaveExtends(t, id, parent, meta.createdTime, meta.lastEditedTime, content);
    SaveSameFrom(ws, t, id, parent, meta.createdTime, meta.lastEditedTime, content);
    match Node(ws, id).children
    case Failure(_) =>
      assert u == t1;
    case Success(listing) =>
      var kids := PageKids(ws, id, listing);
      var r := VisitChildren(ws, id, kids.0, resume, t1);
      assert u == if r.0.Raised? then r.1 else VisitDatabases(ws, id, kids.1, resume, r.1);
      VisitKidsFacts(ws, id, kids.0, kids.1, resume, t1);
      SameFromTransitive(ws, t, t1, u, Rank(ws, id) + 1, Rank(ws, id), Rank(ws, id) + 1);
      ExtendsTransitive(t, t1, u);
  }

  /** The placeholder row and the error logged for a node whose metadata cannot be read. */
  lemma UnreadableNodeFacts(ws: Remote, t: Tables, id: string, parent: Option<string>, e: string)
    ensures var u := Save(LogError(t, CrawlError(id, parent, e, Placeholder, Placeholder)),
                          id, parent, Some(Placeholder), Some(Placeholder), None);
      Extends(t, u) && SameFrom(ws, t, u, Rank(ws, id) + 1)
  {
    var t1 := LogError(t, CrawlError(id, parent, e, Placeholder, Placeholder));
    SaveExtends(t1, id, parent, Some(Placeholder), Some(Placeholder), None);
    SaveSameFrom(ws, t1, id, parent, Some(Placeholder), Some(Placeholder), None);
  }

  /** The child pages of a node, then (unless one raised) its child databases. */
  lemma {:induction false} VisitKidsFacts(ws: Remote, id: string, pages: seq<string>, dbs: seq<string>,
                                          resume: bool, t: Tables)
    requires WellFounded(ws)
    requires forall x :: x in pages ==> Rank(ws, x) < Rank(ws, id)
    requires forall x :: x in dbs ==> Rank(ws, x) < Rank(ws, id)
    ensures var r := VisitChildren(ws, id, pages, resume, t);
      var u := if r.0.Raised? then r.1 else VisitDatabases(ws, id, dbs, resume, r.1);
      Extends(t, u) && SameFrom(ws, t, u, Rank(ws, id))
    decreases Rank(ws, id), 2, 0
  {
    VisitChildrenFacts(ws, id, pages, resume, t);
    var r := VisitChildren(ws, id, pages, resume, t);
    if !r.0.Raised? {
      VisitDatabasesFacts(ws, id, dbs, resume, r.1);
      var v := VisitDatabases(ws, id, dbs, resume, r.1);
      SameFromTransitive(ws, t, r.1, v, Rank(ws, id), Rank(ws, id), Rank(ws, id));
      ExtendsTransitive(t, r.1, v);
    }
  }

  /** Visiting a container's children leaves every row ranked at or above the container alone. */
  lemma {:induction false} VisitChildrenFacts(ws: Remote, container: string, ids: seq<string>, resume: bool, t: Tables)
    requires WellFounded(ws)
    requires forall x :: x in ids ==> Rank(ws, x) < Rank(ws, container)
    ensures Extends(t, VisitChildren(ws, container, ids, resume, t).1)
    ensures SameFrom(ws, t, VisitChildren(ws, container, ids, resume, t).1, Rank(ws, container))
    decreases Rank(ws, container), 1, |ids|
  {
    if ids == [] {
    } else if StoredUnder(t, ids[0], container) {
      VisitChildrenFacts(ws, container, ids[1..], resume, t);
    } else {
      VisitFacts(ws, ids[0], Some(container), resume, t);
      var r := Visit(ws, ids[0], Some(container), resume, t);
      if !r.0.Raised? {
        VisitChildrenFacts(ws, container, ids[1..], resume, r.1);
        ExtendsTransitive(t, r.1, VisitChildren(ws, container, ids[1..], resume, r.1).1);
      }
    }
  }

  lemma {:induction false} VisitDatabasesFacts(ws: Remote, page: string, dbs: seq<string>, resume: bool, t: Tables)
    requires WellFounded(ws)
    requires forall x :: x in dbs ==> Rank(ws, x) < Rank(ws, page)
    ensures Extends(t, VisitDatabases(ws, page, dbs, resume, t))
    ensures SameFrom(ws, t, VisitDatabases(ws, page, dbs, resume, t), Rank(ws, page))
    decreases Rank(ws, page), 1, |dbs|
  {
    if dbs != [] {
      var t1 := if StoredUnder(t, dbs[0], page) then t else VisitDatabase(ws, page, dbs[0], resume, t);
      if !StoredUnder(t, dbs[0], page) {
        VisitDatabaseFacts(ws, page, dbs[0], resume, t);
      }
      VisitDatabasesFacts(ws, page, dbs[1..], resume, t1);
      ExtendsTransitive(t, t1, VisitDatabases(ws, page, dbs[1..], resume, t1));
    }
  }

  lemma {:induction false} VisitDatabaseFacts(ws: Remote, page: string, db: string, resume: bool, t: Tables)
    requires WellFounded(ws)
    requires Rank(ws, db) < Rank(ws, page)
    ensures Extends(t, VisitDatabase(ws, page, db, resume, t))
    ensures SameFrom(ws, t, VisitDatabase(ws, page, db, resume, t), Rank(ws, page))
    decreases Rank(ws, page), 0, 0
  {
    if !IsValidDatabaseId(ws, db) {
      RecordDatabaseFailureExtends(ws, page, db, InaccessibleDatabaseMessage, t);
    } else {
      match Node(ws, db).rows
      case Failure(e) =>
        RecordDatabaseFailureExtends(ws, page, db, e, t);
      case Success(pages) =>
        var rows := RowsOf(ws, db);
        VisitChildrenFacts(ws, db, rows, resume, t);
        var r := VisitChildren(ws, db, rows, resume, t);
        if r.0.Raised? {
          RecordDatabaseFailureExtends(ws, page, db, r.0.message, r.1);
          ExtendsTransitive(t, r.1, RecordDatabaseFailure(ws, page, db, r.0.message, r.1));
        }
    }
  }

  /**
   * A node whose metadata cannot be fetched gets exactly one crawl error and a placeholder row
   * with both timestamps "NA" and its content kept, and nothing beneath it is visited.
   */
  lemma MetadataFailureRecorded(ws: Remote, id: string, parent: Option<string>, resume: bool, t: Tables)
    requires WellFounded(ws) && FetchMetadata(ws, id).Failure?
    ensures var (outcome, u) := Visit(ws, id, parent, resume, t);
      && outcome == Completed
      && u.errors == t.errors + [CrawlError(id, parent, FetchMetadata(ws, id).error, Placeholder, Placeholder)]
      && u.pages == t.pages[id := PageRow(parent, Some(Placeholder), Some(Placeholder),
                                          if id in t.pages then t.pages[id].content else None)]
      && u.writes == t.writes + [id]
  {
  }

  /** In normal mode, an unchanged `last_edited_time` means no write and no descent. */
  lemma UnchangedNodeSkipped(ws: Remote, id: string, parent: Option<string>, t: Tables)
    requires WellFounded(ws) && FetchMetadata(ws, id).Success?
    requires id in t.pages && t.pages[id].lastEditedTime == FetchMetadata(ws, id).value.lastEditedTime
    ensures Visit(ws, id, parent, false, t) == (Completed, t)
  {
  }

  /**
   * When a node's metadata is fetched and it is not skipped (always so when resuming), its row is
   * the first write of the visit, and it is still the row stored when the visit ends.
   */
  lemma {:induction false} NodeWrittenFirst(ws: Remote, id: string, parent: Option<string>, resume: bool, t: Tables)
    requires WellFounded(ws) && FetchMetadata(ws, id).Success?
    requires resume || id !in t.pages
          || t.pages[id].lastEditedTime != FetchMetadata(ws, id).value.lastEditedTime
    ensures var u := Visit(ws, id, parent, resume, t).1; var meta := FetchMetadata(ws, id).value;
      && t.writes + [id] <= u.writes
      && id in u.pages
      && u.pages[id] == PageRow(parent, meta.createdTime, meta.lastEditedTime,
                                if id in t.pages then t.pages[id].content else None)
  {
    var meta := FetchMetadata(ws, id).value;
    var stored := Lookup(t, id);
    var content := if stored.Some? then stored.value.content else None;
    var t1 := Save(t, id, parent, meta.createdTime, meta.lastEditedTime, content);
    match Node(ws, id).children
    case Failure(_) =>
    case Success(listing) =>
      var kids := PageKids(ws, id, listing);
      var r := VisitChildren(ws, id, kids.0, resume, t1);
      var u := if r.0.Raised? then r.1 else VisitDatabases(ws, id, kids.1, resume, r.1);
      assert Visit(ws, id, parent, resume, t).1 == u;
      VisitKidsFacts(ws, id, kids.0, kids.1, resume, t1);
      assert Lookup(t1, id) == Lookup(u, id);
  }

  /**
   * Once a node has been crawled (in either mode, even if an exception escaped), crawling it again
   * in normal mode changes nothing, provided its metadata can be fetched.
   */
  lemma CrawlIdempotent(ws: Remote, id: string, p1: Option<string>, p2: Option<string>, resume: bool, t: Tables)
    requires WellFounded(ws) && FetchMetadata(ws, id).Success?
    ensures var u := Visit(ws, id, p1, resume, t).1; Visit(ws, id, p2, false, u) == (Completed, u)
  {
    var meta := FetchMetadata(ws, id).value;
    if !resume && id in t.pages && t.pages[id].lastEditedTime == meta.lastEditedTime {
      UnchangedNodeSkipped(ws, id, p1, t);
    } else {
      NodeWrittenFirst(ws, id, p1, resume, t);
    }
  }

  /** The crawl never alters stored content, and the rows it creates carry none. */
  lemma CrawlKeepsContent(ws: Remote, id: string, parent: Option<string>, resume: bool, t: Tables)
    requires WellFounded(ws)
    ensures var u := Visit(ws, id, parent, resume, t).1;
      && (forall k :: k in t.pages ==> k in u.pages && u.pages[k].content == t.pages[k].content)
      && (forall k :: k in u.pages && k !in t.pages ==> u.pages[k].content.None?)
      && t.errors <= u.errors
  {
    VisitFacts(ws, id, parent, resume, t);
  }

  /** Every node visited has a row afterwards, whatever escapes beneath it. */
  lemma VisitStoresNode(ws: Remote, id: string, parent: Option<string>, resume: bool, t: Tables)
    requires WellFounded(ws)
    ensures id in Visit(ws, id, parent, resume, t).1.pages
  {
    match FetchMetadata(ws, id)
    case Failure(e) =>
      MetadataFailureRecorded(ws, id, parent, resume, t);
    case Success(meta) =>
      if !resume && id in t.pages && t.pages[id].lastEditedTime == meta.lastEditedTime {
        UnchangedNodeSkipped(ws, id, parent, t);
      } else {
        NodeWrittenFirst(ws, id, parent, resume, t);
      }
  }

  /** When the loop over a container's children completes, every child has a row. */
  lemma {:induction false} CompletedChildrenStored(ws: Remote, container: string, ids: seq<string>, resume: bool, t: Tables)
    requires WellFounded(ws)
    requires forall x :: x in ids ==> Rank(ws, x) < Rank(ws, container)
    ensures var r := VisitChildren(ws, container, ids, resume, t);
      r.0 == Completed ==> forall x :: x in ids ==> x in r.1.pages
    decreases |ids|
  {
    if ids != [] {
      var rest := ids[1..];
      assert forall x :: x in ids ==> x == ids[0] || x in rest;
      if StoredUnder(t, ids[0], container) {
        CompletedChildrenStored(ws, container, rest, resume, t);
        VisitChildrenFacts(ws, container, rest, resume, t);
      } else {
        var r := Visit(ws, ids[0], Some(container), resume, t);
        VisitStoresNode(ws, ids[0], Some(container), resume, t);
        if !r.0.Raised? {
          CompletedChildrenStored(ws, container, rest, resume, r.1);
          VisitChildrenFacts(ws, container, rest, resume, r.1);
        }
      }
    }
  }

  /** A child already stored under the container is passed over, in both modes. */
  lemma StoredChildSkipped(ws: Remote, container: string, x: string, rest: seq<string>, resume: bool, t: Tables)
    requires WellFounded(ws)
    requires forall y :: y in [x] + rest ==> Rank(ws, y) < Rank(ws, container)
    requires StoredUnder(t, x, container)
    ensures VisitChildren(ws, container, [x] + rest, resume, t) == VisitChildren(ws, container, rest, resume, t)
  {
    assert ([x] + rest)[1..] == rest;
  }

  /** A child database already stored under the page is passed over, in both modes. */
  lemma StoredDatabaseSkipped(ws: Remote, page: string, db: string, rest: seq<string>, resume: bool, t: Tables)
    requires WellFounded(ws)
    requires forall y :: y in [db] + rest ==> Rank(ws, y) < Rank(ws, page)
    requires StoredUnder(t, db, page)
    ensures VisitDatabases(ws, page, [db] + rest, resume, t) == VisitDatabases(ws, page, rest, resume, t)
  {
    assert ([db] + rest)[1..] == rest;
  }

  /** An exception escaping a child's visit ends the loop: later siblings are not visited. */
  lemma ChildExceptionPropagates(ws: Remote, container: string, x: string, rest: seq<string>, resume: bool, t: Tables)
    requires WellFounded(ws)
    requires forall y :: y in [x] + rest ==> Rank(ws, y) < Rank(ws, container)
    requires !StoredUnder(t, x, container) && Visit(ws, x, Some(container), resume, t).0.Raised?
    ensures VisitChildren(ws, container, [x] + rest, resume, t) == Visit(ws, x, Some(container), resume, t)
  {
  }

  /** A node that is fetched and not skipped, but whose children cannot be listed, raises that error out of its visit. */
  lemma ListingFailureRaises(ws: Remote, id: string, parent: Option<string>, resume: bool, t: Tables)
    requires WellFounded(ws) && FetchMetadata(ws, id).Success? && Node(ws, id).children.Failure?
    requires resume || id !in t.pages
          || t.pages[id].lastEditedTime != FetchMetadata(ws, id).value.lastEditedTime
    ensures Visit(ws, id, parent, resume, t).0 == Raised(Node(ws, id).children.error)
  {
  }

  /** A valid database whose rows are crawled without an exception gets no row of its own. */
  lemma ValidDatabaseNotStored(ws: Remote, page: string, db: string, resume: bool, t: Tables)
    requires WellFounded(ws) && Rank(ws, db) < Rank(ws, page)
    requires IsValidDatabaseId(ws, db) && Node(ws, db).rows.Success?
    requires VisitChildren(ws, db, RowsOf(ws, db), resume, t).0 == Completed
    ensures Lookup(VisitDatabase(ws, page, db, resume, t), db) == Lookup(t, db)
  {
    VisitChildrenFacts(ws, db, RowsOf(ws, db), resume, t);
  }

  /**
   * An inaccessible database, or one whose query or row crawl raises, ends with a placeholder row
   * under the page (timestamps "NA", content kept) and one crawl error naming it, as the last entry.
   */
  lemma DatabaseFailureRecorded(ws: Remote, page: string, db: string, resume: bool, t: Tables)
    requires WellFounded(ws) && Rank(ws, db) < Rank(ws, page)
    requires !IsValidDatabaseId(ws, db) || Node(ws, db).rows.Failure?
          || VisitChildren(ws, db, RowsOf(ws, db), resume, t).0.Raised?
    ensures var u := VisitDatabase(ws, page, db, resume, t);
      && |u.errors| > |t.errors|
      && u.errors[|u.errors| - 1].id == db
      && u.errors[|u.errors| - 1].parentId == Some(page)
      && u.errors[|u.errors| - 1].headTitle == Node(ws, db).headTitle
      && (!IsValidDatabaseId(ws, db) ==> u.errors[|u.errors| - 1].message == InaccessibleDatabaseMessage)
      && (IsValidDatabaseId(ws, db) && Node(ws, db).rows.Failure? ==>
            u.errors[|u.errors| - 1].message == Node(ws, db).rows.error)
      && (IsValidDatabaseId(ws, db) && Node(ws, db).rows.Success? ==>
            u.errors[|u.errors| - 1].message
              == VisitChildren(ws, db, RowsOf(ws, db), resume, t).0.message)
      && db in u.pages
      && u.pages[db] == PageRow(Some(page), Some(Placeholder), Some(Placeholder),
                                if db in t.pages then t.pages[db].content else None)
  {
    if IsValidDatabaseId(ws, db) && Node(ws, db).rows.Success? {
      var rows := RowsOf(ws, db);
      VisitChildrenFacts(ws, db, rows, resume, t);
      var r := VisitChildren(ws, db, rows, resume, t);
      assert Lookup(t, db) == Lookup(r.1, db);
      assert |r.1.errors| >= |t.errors|;
    }
  }
}
