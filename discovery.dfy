/**
 * Tree discovery: the paginated listing of a block's children (`get_child_pages_and_databases`)
 * and of a database's rows (`get_database_rows`). Both follow `next_cursor` while it is truthy,
 * sending it back as `start_cursor`, and collect the results in arrival order.
 *
 * The server's paginated answer is given as the sequence of pages it returns, in order; each
 * request that produced them went through the rate-limited transport.
 */
module Discovery {
  import opened Wrappers

  /** One page of a paginated reply. */
  datatype Page<T> = Page(results: seq<T>, nextCursor: Option<string>)

  /** An entry of a block-children reply: its `id`, its `type` tag and the `title` of its payload. */
  datatype Block = Block(id: string, kind: Option<string>, title: Option<string>)

  /** An entry of a database-query reply: its `id` and its `object` tag. */
  datatype QueryEntry = QueryEntry(id: string, objectKind: string)

  /** A discovered child: id and display title. */
  datatype ChildRef = ChildRef(id: string, title: string)

  const ChildPageKind := "child_page"
  const ChildDatabaseKind := "child_database"
  const PageObject := "page"

  /** Python truthiness of `data.get("next_cursor")`: present and non-empty. */
  predicate Truthy(cursor: Option<string>) {
    cursor.Some? && cursor.value != ""
  }

  /** A finite paginated answer: every page but the last names a cursor to continue from. */
  predicate Chained<T>(pages: seq<Page<T>>) {
    && |pages| > 0
    && (forall k :: 0 <= k < |pages| - 1 ==> Truthy(pages[k].nextCursor))
    && !Truthy(pages[|pages| - 1].nextCursor)
  }

  /** All results of the pages, page after page. */
  function Flatten<T>(pages: seq<Page<T>>): seq<T> {
    if pages == [] then [] else Flatten(pages[..|pages| - 1]) + pages[|pages| - 1].results
  }

  /** Flattening one more page appends its results. */
  lemma FlattenPrefix<T>(pages: seq<Page<T>>, i: nat)
    requires i < |pages|
    ensures Flatten(pages[..i + 1]) == Flatten(pages[..i]) + pages[i].results
  {
    assert pages[..i + 1][..i] == pages[..i];
  }

  /** Reading one more result of a page extends what was read by that result. */
  lemma PrefixSnoc<T>(before: seq<T>, results: seq<T>, j: nat)
    requires j < |results|
    ensures before + results[..j + 1] == (before + results[..j]) + [results[j]]
  {
    assert results[..j + 1] == results[..j] + [results[j]];
  }

  /** The reference recorded for a child block: its id and its title, `""` when missing. */
  function RefOf(b: Block): ChildRef {
    ChildRef(b.id, b.title.GetOr(""))
  }

  /** Sorting one more block: a child page or a child database is appended to its list. */
  function ClassifyStep(acc: (seq<ChildRef>, seq<ChildRef>), b: Block): (seq<ChildRef>, seq<ChildRef>) {
    if b.kind == Some(ChildPageKind) then (acc.0 + [RefOf(b)], acc.1)
    else if b.kind == Some(ChildDatabaseKind) then (acc.0, acc.1 + [RefOf(b)])
    else acc
  }

  /** Sorting blocks into child pages and child databases; every other block type is dropped. */
  function Classify(blocks: seq<Block>): (r: (seq<ChildRef>, seq<ChildRef>))
    ensures |r.0| + |r.1| <= |blocks|
  {
    if blocks == [] then ([], [])
    else ClassifyStep(Classify(blocks[..|blocks| - 1]), blocks[|blocks| - 1])
  }

  /** Classifying one more block adds it to the list its type names, and to no other. */
  lemma ClassifySnoc(blocks: seq<Block>, b: Block)
    ensures Classify(blocks + [b]).0
         == Classify(blocks).0 + (if b.kind == Some(ChildPageKind) then [RefOf(b)] else [])
    ensures Classify(blocks + [b]).1
         == Classify(blocks).1 + (if b.kind != Some(ChildPageKind) && b.kind == Some(ChildDatabaseKind) then [RefOf(b)] else [])
  {
    assert (blocks + [b])[..|blocks|] == blocks;
    assert Classify(blocks + [b]) == ClassifyStep(Classify(blocks), b);
  }

  /** Keeping one more entry's id when it is a page. */
  function RowStep(acc: seq<string>, e: QueryEntry): seq<string> {
    if e.objectKind == PageObject then acc + [e.id] else acc
  }

  /** The ids of the entries that are pages, in order; every other object is dropped. */
  function RowIds(entries: seq<QueryEntry>): (ids: seq<string>)
    ensures |ids| <= |entries|
  {
    if entries == [] then []
    else RowStep(RowIds(entries[..|entries| - 1]), entries[|entries| - 1])
  }

  lemma RowIdsSnoc(entries: seq<QueryEntry>, e: QueryEntry)
    ensures RowIds(entries + [e]) == RowStep(RowIds(entries), e)
  {
    assert (entries + [e])[..|entries|] == entries;
  }

  /** The `start_cursor` each request carried: none on the first, then each page's cursor. */
  predicate FollowsCursors<T>(requests: seq<Option<string>>, pages: seq<Page<T>>) {
    && |requests| == |pages|
    && (|requests| > 0 ==> requests[0] == None)
    && (forall k :: 0 < k < |requests| ==> requests[k] == pages[k - 1].nextCursor)
  }

  /** The request for page `i` carries the cursor the page before it returned. */
  lemma CursorStep<T>(requests: seq<Option<string>>, pages: seq<Page<T>>, i: nat, cursor: Option<string>)
    requires i < |pages| && FollowsCursors(requests, pages[..i])
    requires cursor == (if i == 0 then None else pages[i - 1].nextCursor)
    ensures FollowsCursors(requests + [cursor], pages[..i + 1])
  {
    var r := requests + [cursor];
    forall k | 0 < k < |r| ensures r[k] == pages[..i + 1][k - 1].nextCursor {
      if k < i {
        assert r[k] == requests[k];
      }
    }
  }

  /** `get_child_pages_and_databases`: page through the children and sort them by type. */
  method ListChildren(pages: seq<Page<Block>>)
    returns (childPages: seq<ChildRef>, childDatabases: seq<ChildRef>, requests: seq<Option<string>>)
    requires Chained(pages)
    ensures childPages == Classify(Flatten(pages)).0 && childDatabases == Classify(Flatten(pages)).1
    ensures FollowsCursors(requests, pages)
  {
    childPages, childDatabases, requests := [], [], [];
    var cursor: Option<string> := None;
    var i := 0;
    while true
      invariant 0 <= i < |pages|
      invariant FollowsCursors(requests, pages[..i])
      invariant cursor == (if i == 0 then None else pages[i - 1].nextCursor)
      invariant childPages == Classify(Flatten(pages[..i])).0
      invariant childDatabases == Classify(Flatten(pages[..i])).1
      decreases |pages| - i
    {
      CursorStep(requests, pages, i, cursor);
      requests := requests + [cursor];
      var page := pages[i];
      childPages, childDatabases := ClassifyResults(childPages, childDatabases, page.results, Flatten(pages[..i]));
      FlattenPrefix(pages, i);
      if Truthy(page.nextCursor) {
        cursor := page.nextCursor;
        i := i + 1;
      } else {
        assert i == |pages| - 1;
        assert pages[..i + 1] == pages;
        return;
      }
    }
  }

  /** The inner loop of `get_child_pages_and_databases`: sort one page of results by type. */
  method ClassifyResults(childPages: seq<ChildRef>, childDatabases: seq<ChildRef>, results: seq<Block>,
                         ghost before: seq<Block>)
    returns (pagesAfter: seq<ChildRef>, databasesAfter: seq<ChildRef>)
    requires childPages == Classify(before).0 && childDatabases == Classify(before).1
    ensures pagesAfter == Classify(before + results).0 && databasesAfter == Classify(before + results).1
  {
    pagesAfter, databasesAfter := childPages, childDatabases;
    var j := 0;
    assert before + results[..j] == before;
    while j < |results|
      invariant 0 <= j <= |results|
      invariant pagesAfter == Classify(before + results[..j]).0
      invariant databasesAfter == Classify(before + results[..j]).1
    {
      var child := results[j];
      PrefixSnoc(before, results, j);
      ClassifySnoc(before + results[..j], child);
      if child.kind == Some(ChildPageKind) {
        pagesAfter := pagesAfter + [RefOf(child)];
      } else if child.kind == Some(ChildDatabaseKind) {
        databasesAfter := databasesAfter + [RefOf(child)];
      }
      j := j + 1;
    }
    assert results[..j] == results;
  }

  /** `get_database_rows`: page through the query and keep the ids of the page entries. */
  method ListDatabaseRows(pages: seq<Page<QueryEntry>>)
    returns (rows: seq<string>, requests: seq<Option<string>>)
    requires Chained(pages)
    ensures rows == RowIds(Flatten(pages))
    ensures FollowsCursors(requests, pages)
  {
    rows, requests := [], [];
    var cursor: Option<string> := None;
    var i := 0;
    while true
      invariant 0 <= i < |pages|
      invariant FollowsCursors(requests, pages[..i])
      invariant cursor == (if i == 0 then None else pages[i - 1].nextCursor)
      invariant rows == RowIds(Flatten(pages[..i]))
      decreases |pages| - i
    {
      CursorStep(requests, pages, i, cursor);
      requests := requests + [cursor];
      var page := pages[i];
      rows := CollectRowIds(rows, page.results, Flatten(pages[..i]));
      FlattenPrefix(pages, i);
      if Truthy(page.nextCursor) {
        cursor := page.nextCursor;
        i := i + 1;
      } else {
        assert i == |pages| - 1;
        assert pages[..i + 1] == pages;
        return;
      }
    }
  }

  /** The inner loop of `get_database_rows`: keep the ids of the page entries of one batch. */
  method CollectRowIds(rows: seq<string>, results: seq<QueryEntry>, ghost before: seq<QueryEntry>)
    returns (rowsAfter: seq<string>)
    requires rows == RowIds(before)
    ensures rowsAfter == RowIds(before + results)
  {
    rowsAfter := rows;
    var j := 0;
    assert before + results[..j] == before;
    while j < |results|
      invariant 0 <= j <= |results|
      invariant rowsAfter == RowIds(before + results[..j])
    {
      var entry := results[j];
      PrefixSnoc(before, results, j);
      RowIdsSnoc(before + results[..j], entry);
      if entry.objectKind == PageObject {
        rowsAfter := rowsAfter + [entry.id];
      }
      j := j + 1;
    }
    assert results[..j] == results;
  }

  /** Pagination boundaries do not matter: classifying two batches is classifying them joined. */
  lemma {:induction false} ClassifyAppend(a: seq<Block>, b: seq<Block>)
    ensures Classify(a + b) == (Classify(a).0 + Classify(b).0, Classify(a).1 + Classify(b).1)
    decreases |b|
  {
    if b == [] {
      assert a + b == a;
      assert Classify(a).0 + [] == Classify(a).0 && Classify(a).1 + [] == Classify(a).1;
    } else {
      assert (a + b)[..|a + b| - 1] == a + b[..|b| - 1];
      var init, last := b[..|b| - 1], b[|b| - 1];
      assert (a + b)[|a + b| - 1] == last;
      ClassifyAppend(a, init);
      var ca, ci := Classify(a), Classify(init);
      if last.kind == Some(ChildPageKind) {
        assert (ca.0 + ci.0) + [RefOf(last)] == ca.0 + (ci.0 + [RefOf(last)]);
      } else if last.kind == Some(ChildDatabaseKind) {
        assert (ca.1 + ci.1) + [RefOf(last)] == ca.1 + (ci.1 + [RefOf(last)]);
      }
    }
  }

  /**
   * A block becomes a child page exactly when its type is `child_page`, and a child database
   * exactly when its type is `child_database`, keeping its id and its title (default `""`).
   */
  lemma {:induction false} ClassifyMembership(blocks: seq<Block>, c: ChildRef)
    ensures c in Classify(blocks).0 <==>
      exists k :: 0 <= k < |blocks| && blocks[k].kind == Some(ChildPageKind) && RefOf(blocks[k]) == c
    ensures c in Classify(blocks).1 <==>
      exists k :: 0 <= k < |blocks| && blocks[k].kind == Some(ChildDatabaseKind) && RefOf(blocks[k]) == c
  {
    if blocks != [] {
      var init := blocks[..|blocks| - 1];
      ClassifyMembership(init, c);
      forall k | 0 <= k < |init| ensures init[k] == blocks[k] { }
    }
  }

  /** An entry's id is kept as a row exactly when the entry is a page. */
  lemma {:induction false} RowIdsMembership(entries: seq<QueryEntry>, id: string)
    ensures id in RowIds(entries) <==>
      exists k :: 0 <= k < |entries| && entries[k].objectKind == PageObject && entries[k].id == id
  {
    if entries != [] {
      var init := entries[..|entries| - 1];
      RowIdsMembership(init, id);
      forall k | 0 <= k < |init| ensures init[k] == entries[k] { }
    }
  }
}
