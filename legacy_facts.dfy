/**
 * What the legacy crawler guarantees, and where its skip rules differ from the incremental crawl.
 */
module LegacyFacts {
  import opened Wrappers
  import opened Discovery
  import opened PageStore
  import opened Workspace
  import opened Crawler
  import opened LegacyCrawler

  /** The row carries what the page endpoint answered for its id. */
  ghost predicate FromPageEndpoint(ws: Remote, id: string, row: LegacyRow) {
    && PageMetadata(ws, id).Success?
    && row.createdTime == PageMetadata(ws, id).value.createdTime
    && row.lastEditedTime == PageMetadata(ws, id).value.lastEditedTime
  }

  /**
   * `u` is `t` after some legacy crawling: no row disappears, the write order grows at the end, and
   * every row of `u` is either the row `t` had or one read from the page endpoint.
   */
  ghost predicate Grows(ws: Remote, t: LegacyTables, u: LegacyTables) {
    && t.pages.Keys <= u.pages.Keys
    && t.writes <= u.writes
    && (forall k :: k in u.pages ==> (k in t.pages && u.pages[k] == t.pages[k]) || FromPageEndpoint(ws, k, u.pages[k]))
  }

  /** No row of rank `bound` or more differs between `t` and `u`. */
  ghost predicate SameFrom(ws: Remote, t: LegacyTables, u: LegacyTables, bound: nat) {
    forall k :: Rank(ws, k) >= bound ==> (k in t.pages <==> k in u.pages) && (k in t.pages ==> t.pages[k] == u.pages[k])
  }

  lemma GrowsTransitive(ws: Remote, t: LegacyTables, u: LegacyTables, v: LegacyTables)
    requires Grows(ws, t, u) && Grows(ws, u, v)
    ensures Grows(ws, t, v)
  {
  }

  lemma SameFromTransitive(ws: Remote, t: LegacyTables, u: LegacyTables, v: LegacyTables, b1: nat, b2: nat, b: nat)
    requires SameFrom(ws, t, u, b1) && SameFrom(ws, u, v, b2) && b1 <= b && b2 <= b
    ensures SameFrom(ws, t, v, b)
  {
  }

  lemma {:induction false} CrawlTreeFacts(ws: Remote, id: string, parent: Option<string>, t: LegacyTables)
    requires WellFounded(ws)
    ensures Grows(ws, t, CrawlTree(ws, id, parent, t).1)
    ensures SameFrom(ws, t, CrawlTree(ws, id, parent, t).1, Rank(ws, id) + 1)
    decreases Rank(ws, id), 2, 0
  {
    var u := CrawlTree(ws, id, parent, t).1;
    match PageMetadata(ws, id)
    case Failure(_) =>
      assert u == t;
    case Success(meta) =>
      if id in t.pages && t.pages[id].lastEditedTime == meta.lastEditedTime {
        assert u == t;
      } else {
        var t1 := LegacySave(t, id, parent, meta.createdTime, meta.lastEditedTime);
        assert Grows(ws, t, t1);
        assert SameFrom(ws, t, t1, Rank(ws, id) + 1);
        match Node(ws, id).children
        case Failure(_) =>
          assert u == t1;
        case Success(listing) =>
          var kids := PageKids(ws, id, listing);
          CrawlEachFacts(ws, id, kids.0, t1);
          var r := CrawlEach(ws, id, kids.0, t1);
          GrowsTransitive(ws, t, t1, r.1);
          SameFromTransitive(ws, t, t1, r.1, Rank(ws, id) + 1, Rank(ws, id), Rank(ws, id) + 1);
          if r.0.Raised? {
            assert u == r.1;
          } else {
            CrawlDatabaseRowsFacts(ws, id, kids.1, r.1);
            var v := CrawlDatabaseRows(ws, id, kids.1, r.1);
            assert u == v;
            GrowsTransitive(ws, t, r.1, v);
            SameFromTransitive(ws, t, r.1, v, Rank(ws, id) + 1, Rank(ws, id), Rank(ws, id) + 1);
          }
      }
  }

  lemma {:induction false} CrawlEachFacts(ws: Remote, container: string, ids: seq<string>, t: LegacyTables)
    requires WellFounded(ws)
    requires forall x :: x in ids ==> Rank(ws, x) < Rank(ws, container)
    ensures Grows(ws, t, CrawlEach(ws, container, ids, t).1)
    ensures SameFrom(ws, t, CrawlEach(ws, container, ids, t).1, Rank(ws, container))
    decreases Rank(ws, container), 1, |ids|
  {
    if ids != [] {
      CrawlTreeFacts(ws, ids[0], Some(container), t);
      var r := CrawlTree(ws, ids[0], Some(container), t);
      if !r.0.Raised? {
        CrawlEachFacts(ws, container, ids[1..], r.1);
        GrowsTransitive(ws, t, r.1, CrawlEach(ws, container, ids[1..], r.1).1);
      }
    }
  }

  lemma {:induction false} CrawlDatabaseRowsFacts(ws: Remote, page: string, dbs: seq<string>, t: LegacyTables)
    requires WellFounded(ws)
    requires forall x :: x in dbs ==> Rank(ws, x) < Rank(ws, page)
    ensures Grows(ws, t, CrawlDatabaseRows(ws, page, dbs, t))
    ensures SameFrom(ws, t, CrawlDatabaseRows(ws, page, dbs, t), Rank(ws, page))
    decreases Rank(ws, page), 1, |dbs|
  {
    if dbs != [] {
      var db := dbs[0];
      var t1 :=
        if !IsValidDatabaseId(ws, db) then t
        else match Node(ws, db).rows
          case Failure(_) => t
          case Success(_) => CrawlEach(ws, db, RowsOf(ws, db), t).1;
      if IsValidDatabaseId(ws, db) && Node(ws, db).rows.Success? {
        assert db in ws && NodeWellFounded(ws, db);
        CrawlEachFacts(ws, db, RowsOf(ws, db), t);
      }
      CrawlDatabaseRowsFacts(ws, page, dbs[1..], t1);
      GrowsTransitive(ws, t, t1, CrawlDatabaseRows(ws, page, dbs[1..], t1));
    }
  }

  /**
   * Everything the legacy `main` stores was read from the page endpoint: it writes no placeholder,
   * and a row it does not rewrite keeps its old value.
   */
  lemma LegacyRowsFromPageEndpoint(ws: Remote, root: string, t: LegacyTables)
    requires WellFounded(ws)
    ensures var u := Main(ws, root, t).1;
      forall k :: k in u.pages ==> (k in t.pages && u.pages[k] == t.pages[k]) || FromPageEndpoint(ws, k, u.pages[k])
  {
    match DetectIdType(ws, root)
    case Failure(_) =>
    case Success(PageId) => CrawlTreeFacts(ws, root, None, t);
    case Success(DatabaseId) =>
      match Node(ws, root).rows
      case Failure(_) =>
      case Success(_) =>
        CrawlEachFacts(ws, root, RowsOf(ws, root), t);
  }

  /** A database given as the root is never stored: only its rows are crawled, under its id. */
  lemma DatabaseRootNeverStored(ws: Remote, root: string, t: LegacyTables)
    requires WellFounded(ws) && DetectIdType(ws, root) == Success(DatabaseId)
    ensures var u := Main(ws, root, t).1;
      (root in u.pages <==> root in t.pages) && (root in t.pages ==> u.pages[root] == t.pages[root])
  {
    match Node(ws, root).rows
    case Failure(_) =>
    case Success(_) =>
      CrawlEachFacts(ws, root, RowsOf(ws, root), t);
  }

  /** A metadata failure is not caught: it escapes with nothing written. */
  lemma MetadataFailureEscapes(ws: Remote, id: string, parent: Option<string>, t: LegacyTables)
    requires WellFounded(ws) && PageMetadata(ws, id).Failure?
    ensures CrawlTree(ws, id, parent, t) == (Raised(PageMetadata(ws, id).error), t)
  {
  }

  /** An inaccessible database, or one whose query fails, is passed over without a write. */
  lemma UnreadableDatabaseSkipped(ws: Remote, page: string, db: string, rest: seq<string>, t: LegacyTables)
    requires WellFounded(ws)
    requires forall x :: x in [db] + rest ==> Rank(ws, x) < Rank(ws, page)
    requires !IsValidDatabaseId(ws, db) || Node(ws, db).rows.Failure?
    ensures CrawlDatabaseRows(ws, page, [db] + rest, t) == CrawlDatabaseRows(ws, page, rest, t)
  {
    assert ([db] + rest)[1..] == rest;
  }

  /** A node whose page metadata is read and whose stored edit time differs is written, and stays so. */
  lemma {:induction false} LegacyNodeWritten(ws: Remote, id: string, parent: Option<string>, t: LegacyTables)
    requires WellFounded(ws) && PageMetadata(ws, id).Success?
    requires id !in t.pages || t.pages[id].lastEditedTime != PageMetadata(ws, id).value.lastEditedTime
    ensures var u := CrawlTree(ws, id, parent, t).1; var meta := PageMetadata(ws, id).value;
      && t.writes + [id] <= u.writes
      && id in u.pages && u.pages[id] == LegacyRow(parent, meta.createdTime, meta.lastEditedTime)
  {
    var meta := PageMetadata(ws, id).value;
    var t1 := LegacySave(t, id, parent, meta.createdTime, meta.lastEditedTime);
    match Node(ws, id).children
    case Failure(_) =>
    case Success(listing) =>
      var kids := PageKids(ws, id, listing);
      CrawlEachFacts(ws, id, kids.0, t1);
      var r := CrawlEach(ws, id, kids.0, t1);
      if !r.0.Raised? {
        CrawlDatabaseRowsFacts(ws, id, kids.1, r.1);
      }
  }

  /** Re-running the legacy crawl on a node whose page metadata is readable changes nothing. */
  lemma LegacyCrawlIdempotent(ws: Remote, id: string, p1: Option<string>, p2: Option<string>, t: LegacyTables)
    requires WellFounded(ws) && PageMetadata(ws, id).Success?
    ensures var u := CrawlTree(ws, id, p1, t).1; CrawlTree(ws, id, p2, u) == (Completed, u)
  {
    if id !in t.pages || t.pages[id].lastEditedTime != PageMetadata(ws, id).value.lastEditedTime {
      LegacyNodeWritten(ws, id, p1, t);
    }
  }

  /**
   * The skip rules differ: a child already stored under its container, with an edit time the
   * workspace has since changed, is passed over by the incremental crawl but rewritten by the legacy one.
   */
  lemma SkipRulesDiffer(ws: Remote, container: string, x: string, t: Tables, lt: LegacyTables, resume: bool)
    requires WellFounded(ws) && Rank(ws, x) < Rank(ws, container)
    requires StoredUnder(t, x, container)
    requires PageMetadata(ws, x).Success?
    requires x in lt.pages && lt.pages[x].lastEditedTime != PageMetadata(ws, x).value.lastEditedTime
    ensures VisitChildren(ws, container, [x], resume, t) == (Completed, t)
    ensures var u := CrawlEach(ws, container, [x], lt).1;
      x in u.pages && u.pages[x].lastEditedTime == PageMetadata(ws, x).value.lastEditedTime
  {
    assert [x][1..] == [];
    LegacyNodeWritten(ws, x, Some(container), lt);
    var r := CrawlTree(ws, x, Some(container), lt);
    if !r.0.Raised? {
      assert CrawlEach(ws, container, [x], lt) == CrawlEach(ws, container, [], r.1);
    }
  }
}
