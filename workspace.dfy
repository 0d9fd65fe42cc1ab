/**
 * The remote Notion workspace as the crawler sees it: for every id, what each endpoint answers.
 * It is an immutable value; an id the map does not name answers 404 everywhere.
 *
 * The crawl has no depth bound and no cycle guard of its own. It terminates on workspaces whose
 * listings form a finite tree, which `WellFounded` states with a rank per node: every listed child
 * page or child database ranks below the page listing it, every row below its database.
 */
module Workspace {
  import opened Wrappers
  import opened Discovery

  /** The two fields `get_page_metadata` keeps from the JSON reply. */
  datatype Meta = Meta(createdTime: Option<string>, lastEditedTime: Option<string>)

  /** What the workspace answers about one id. */
  datatype RemoteNode = RemoteNode(
    rank: nat,
    databaseStatus: int,                         // plain GET /databases/{id}
    pageStatus: int,                             // plain GET /pages/{id}
    databaseMeta: Result<Meta, string>,          // rate-limited GET /databases/{id}, or str(e)
    pageMeta: Result<Meta, string>,              // rate-limited GET /pages/{id}, or str(e)
    children: Result<seq<Page<Block>>, string>,  // GET /blocks/{id}/children, all pages, or str(e)
    rows: Result<seq<Page<QueryEntry>>, string>, // POST /databases/{id}/query, all pages, or str(e)
    headTitle: string,                           // str(get_database_title(id)), or "NA"
    headRow: string)                             // str(get_first_db_row(id)), or "NA"

  type Remote = map<string, RemoteNode>

  const Ok := 200
  const NotFound := 404
  const NotFoundMessage := "404 Client Error: Not Found"

  /** How an id the workspace does not know answers. */
  const Absent := RemoteNode(0, NotFound, NotFound, Failure(NotFoundMessage), Failure(NotFoundMessage),
                             Failure(NotFoundMessage), Failure(NotFoundMessage), "NA", "NA")

  function Node(ws: Remote, id: string): RemoteNode {
    if id in ws then ws[id] else Absent
  }

  function Rank(ws: Remote, id: string): nat {
    Node(ws, id).rank
  }

  /** Listings are complete cursor chains and list only lower-ranked children. */
  predicate NodeWellFounded(ws: Remote, id: string)
    requires id in ws
  {
    var n := ws[id];
    && (n.children.Success? ==>
          && Chained(n.children.value)
          && (forall c :: c in Classify(Flatten(n.children.value)).0 ==> Rank(ws, c.id) < n.rank)
          && (forall c :: c in Classify(Flatten(n.children.value)).1 ==> Rank(ws, c.id) < n.rank))
    && (n.rows.Success? ==>
          && Chained(n.rows.value)
          && (forall r :: r in RowIds(Flatten(n.rows.value)) ==> Rank(ws, r) < n.rank))
  }

  predicate WellFounded(ws: Remote) {
    forall id {:trigger NodeWellFounded(ws, id)} :: id in ws ==> NodeWellFounded(ws, id)
  }

  /** The ids of discovered children, in order. */
  function ChildIds(kids: seq<ChildRef>): (ids: seq<string>)
    ensures |ids| == |kids|
    ensures forall i :: 0 <= i < |kids| ==> ids[i] == kids[i].id
  {
    if kids == [] then [] else [kids[0].id] + ChildIds(kids[1..])
  }

  /** The children a page lists all rank below it. */
  lemma ChildIdsBelow(ws: Remote, id: string, kids: seq<ChildRef>)
    requires forall c :: c in kids ==> Rank(ws, c.id) < Rank(ws, id)
    ensures forall x :: x in ChildIds(kids) ==> Rank(ws, x) < Rank(ws, id)
  {
    forall x | x in ChildIds(kids) ensures Rank(ws, x) < Rank(ws, id) {
      var i :| 0 <= i < |kids| && ChildIds(kids)[i] == x;
      assert kids[i] in kids;
    }
  }

  /** The children a well-formed workspace lists for a page, as ids, all ranked below it. */
  function PageKids(ws: Remote, id: string, listing: seq<Page<Block>>): (r: (seq<string>, seq<string>))
    requires WellFounded(ws) && Node(ws, id).children == Success(listing)
    ensures forall x :: x in r.0 ==> Rank(ws, x) < Rank(ws, id)
    ensures forall x :: x in r.1 ==> Rank(ws, x) < Rank(ws, id)
  {
    var kinds := Classify(Flatten(listing));
    assert id in ws && NodeWellFounded(ws, id);
    ChildIdsBelow(ws, id, kinds.0);
    ChildIdsBelow(ws, id, kinds.1);
    (ChildIds(kinds.0), ChildIds(kinds.1))
  }

  /** The rows a well-founded workspace lists for a database, as ids, all ranked below it. */
  function RowsOf(ws: Remote, db: string): (ids: seq<string>)
    requires WellFounded(ws) && Node(ws, db).rows.Success?
    ensures forall x :: x in ids ==> Rank(ws, x) < Rank(ws, db)
  {
    assert db in ws && NodeWellFounded(ws, db);
    RowIds(Flatten(Node(ws, db).rows.value))
  }

  /** How a call that reads the workspace ends: normally, or with an exception escaping it. */
  datatype Outcome = Completed | Raised(message: string)

  /** What `detect_id_type` reports. */
  datatype IdType = PageId | DatabaseId

  function NeitherMessage(id: string): string {
    "ID " + id + " is neither a valid page nor database ID, or you lack access."
  }

  /** `detect_id_type`: the database endpoint is probed first, then the page endpoint. */
  function DetectIdType(ws: Remote, id: string): (r: Result<IdType, string>)
    ensures r == Success(DatabaseId) <==> Node(ws, id).databaseStatus == Ok
    ensures r == Success(PageId) <==> Node(ws, id).databaseStatus != Ok && Node(ws, id).pageStatus == Ok
    ensures r.Failure? ==> r.error == NeitherMessage(id)
  {
    if Node(ws, id).databaseStatus == Ok then Success(DatabaseId)
    else if Node(ws, id).pageStatus == Ok then Success(PageId)
    else Failure(NeitherMessage(id))
  }

  /** `is_valid_database_id`. */
  predicate IsValidDatabaseId(ws: Remote, id: string) {
    Node(ws, id).databaseStatus == Ok
  }

  /** `get_page_metadata`: detect the type, then read the matching endpoint. */
  function FetchMetadata(ws: Remote, id: string): (r: Result<Meta, string>)
    ensures DetectIdType(ws, id).Failure? ==> r == Failure(NeitherMessage(id))
    ensures DetectIdType(ws, id) == Success(DatabaseId) ==> r == Node(ws, id).databaseMeta
    ensures DetectIdType(ws, id) == Success(PageId) ==> r == Node(ws, id).pageMeta
  {
    match DetectIdType(ws, id)
    case Failure(e) => Failure(e)
    case Success(DatabaseId) => Node(ws, id).databaseMeta
    case Success(PageId) => Node(ws, id).pageMeta
  }

  /** An id unknown to the workspace cannot be crawled: its type cannot be detected. */
  lemma AbsentIdUndetectable(ws: Remote, id: string)
    requires id !in ws
    ensures FetchMetadata(ws, id) == Failure(NeitherMessage(id))
  {
  }
}
