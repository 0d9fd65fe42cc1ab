/**
 * The local page store of the crawler: the `pages` table keyed by page id, with a content column
 * that a save without content leaves alone, and the append-only `crawl_errors` table.
 *
 * `Tables` is the store as a value; `Store` is the connection the crawler writes through. Both also
 * keep the order in which page rows were written, which is what parent-before-child is about.
 */
module PageStore {
  import opened Wrappers

  /** A row of `pages`: parent id, created time, last edited time and exported content. */
  datatype PageRow = PageRow(
    parentId: Option<string>,
    createdTime: Option<string>,
    lastEditedTime: Option<string>,
    content: Option<string>)

  /** A row of `crawl_errors`. */
  datatype CrawlError = CrawlError(
    id: string,
    parentId: Option<string>,
    message: string,
    headTitle: string,
    headContent: string)

  /** Both tables, plus the ids of the page rows in the order they were written. */
  datatype Tables = Tables(pages: map<string, PageRow>, errors: seq<CrawlError>, writes: seq<string>)

  /** The timestamp and diagnostic placeholder the crawler writes when it knows nothing better. */
  const Placeholder := "NA"

  const EmptyTables := Tables(map[], [], [])

  /** `get_page_from_db`: the stored row, if any. */
  function Lookup(t: Tables, id: string): (r: Option<PageRow>)
    ensures r.Some? <==> id in t.pages
    ensures r.Some? ==> r.value == t.pages[id]
  {
    if id in t.pages then Some(t.pages[id]) else None
  }

  /**
   * The row `INSERT OR REPLACE` stores: the three metadata columns always come from the arguments,
   * the content from the argument unless it is null, in which case the stored content stays.
   */
  function Upserted(stored: Option<PageRow>, parent: Option<string>, created: Option<string>,
                    lastEdited: Option<string>, content: Option<string>): (r: PageRow)
    ensures r.parentId == parent && r.createdTime == created && r.lastEditedTime == lastEdited
    ensures content.Some? ==> r.content == content
    ensures content.None? && stored.Some? ==> r.content == stored.value.content
    ensures content.None? && stored.None? ==> r.content.None?
  {
    var kept := if content.None? && stored.Some? then stored.value.content else content;
    PageRow(parent, created, lastEdited, kept)
  }

  /** `save_page_to_db` on the tables. */
  function Save(t: Tables, id: string, parent: Option<string>, created: Option<string>,
                lastEdited: Option<string>, content: Option<string>): (r: Tables)
    ensures r.pages.Keys == t.pages.Keys + {id}
    ensures r.pages[id] == Upserted(Lookup(t, id), parent, created, lastEdited, content)
    ensures forall k :: k in t.pages && k != id ==> r.pages[k] == t.pages[k]
    ensures r.errors == t.errors && r.writes == t.writes + [id]
  {
    Tables(t.pages[id := Upserted(Lookup(t, id), parent, created, lastEdited, content)],
           t.errors, t.writes + [id])
  }

  /** `save_crawl_error`: one more row at the end of the error log. */
  function LogError(t: Tables, e: CrawlError): (r: Tables)
    ensures r.pages == t.pages && r.writes == t.writes
    ensures r.errors == t.errors + [e] && |r.errors| == |t.errors| + 1
  {
    Tables(t.pages, t.errors + [e], t.writes)
  }

  /** Saving metadata without content after saving content keeps that content. */
  lemma MetadataSaveKeepsContent(t: Tables, id: string, p1: Option<string>, c1: Option<string>,
                                 e1: Option<string>, body: string,
                                 p2: Option<string>, c2: Option<string>, e2: Option<string>)
    ensures var t1 := Save(t, id, p1, c1, e1, Some(body));
      Save(t1, id, p2, c2, e2, None).pages[id] == PageRow(p2, c2, e2, Some(body))
  {
  }

  /** Repeating a save changes nothing more than the first one did, apart from the write order. */
  lemma SaveIdempotent(t: Tables, id: string, parent: Option<string>, created: Option<string>,
                       lastEdited: Option<string>, content: Option<string>)
    ensures var t1 := Save(t, id, parent, created, lastEdited, content);
      Save(t1, id, parent, created, lastEdited, content).pages == t1.pages
  {
  }

  /** The connection the crawler writes through. */
  class Store {
    var pages: map<string, PageRow>
    var errors: seq<CrawlError>
    ghost var writes: seq<string>

    /** A fresh, empty database. */
    constructor ()
      ensures Contents() == EmptyTables
    {
      pages, errors, writes := map[], [], [];
    }

    /** The tables as a value. */
    ghost function Contents(): Tables
      reads this
    {
      Tables(pages, errors, writes)
    }

    /** `get_page_from_db`. */
    method GetPage(id: string) returns (row: Option<PageRow>)
      ensures row == Lookup(Contents(), id)
    {
      if id in pages {
        row := Some(pages[id]);
      } else {
        row := None;
      }
    }

    /** `save_page_to_db`: read the stored content, then insert or replace the row. */
    method SavePage(id: string, parent: Option<string>, created: Option<string>,
                    lastEdited: Option<string>, content: Option<string>)
      modifies this
      ensures Contents() == Save(old(Contents()), id, parent, created, lastEdited, content)
    {
      var stored := GetPage(id);
      var kept := content;
      if kept.None? && stored.Some? {
        kept := stored.value.content;
      }
      pages := pages[id := PageRow(parent, created, lastEdited, kept)];
      writes := writes + [id];
    }

    /** `save_crawl_error`. */
    method SaveCrawlError(e: CrawlError)
      modifies this
      ensures Contents() == LogError(old(Contents()), e)
    {
      errors := errors + [e];
    }
  }
}
