# Notion explorer: crawler, store and enrichment helpers in Dafny

This project models the core of Notion explorer.

**Incremental metadata crawler** (`cli/notion_cli.py`):
- the rate-limited transport, which retries on 429;
- cursor pagination of block children and database rows;
- detection of an id's type;
- the local `pages` table with its preserve-on-null upsert, and the append-only `crawl_errors` log;
- the depth-first `crawl_metadata` walk, with its skip rules, placeholders and the two modes;
- integration of a markdown export;
- the note-analysis loop, with its "already processed" rule and latest-question-set choice;
- the parse of output file names when they are loaded back.

**Gemini helpers** (`cli/gemini_utils.py`):
- question-set loading and labelling;
- prompt numbering;
- retry-delay parsing;
- fence stripping;
- error classification;
- the annotation every record receives.

**Legacy crawler** (`cli/get_notion_metadata.py`), modelled side by side with the incremental one so that their skip rules can be compared.

**Read side** of the GUI:
- the `gui_backend.py` endpoints for the note list, a single note and the hierarchy;
- the pure helpers of `gui/src/App.js`: titles, question keys, version names, filters, sort toggle and tabs.

The remote Notion workspace is an immutable map from ids to what each endpoint answers. A rank per node keeps the listings a finite tree (`Workspace.WellFounded`), and the crawl recurses on that rank. Stores that the source updates in place are classes: `PageStore.Store` and `LegacyCrawler.LegacyStore`. Each state-changing method is proved to end in exactly the state and outcome that a pure function of the old state gives. The guarantees are then proved as lemmas about those functions. HTTP replies, file listings, JSON parsing and the model call are parameters.

Modules:
- `Wrappers`: Option and Result.
- `Text`: string helpers.
- `Transport`, `Discovery`, `PageStore`, `Workspace`.
- `Crawler` and `CrawlerFacts`.
- `LegacyCrawler` and `LegacyFacts`.
- `Exports` and `ExportsFacts`.
- `Gemini`, `Analysis`, `Backend`, `App`.

## Notes on the code

- **Status check.** `raise_for_status` raises only for statuses 400 to 599, not for every status outside 2xx (`Transport.RaisesForStatus`).
- **Listing errors.** `crawl_metadata` catches a failed metadata fetch and a failing database, but not a failure while listing a page's children (`cli/notion_cli.py:192`). That exception escapes the node's visit (`CrawlerFacts.ListingFailureRaises`), and from there every enclosing child loop (`CrawlerFacts.ChildExceptionPropagates`).
- **Rows of a valid database.** A valid child database gets no row of its own, so the rows crawled under it name a parent id that is not stored (`CrawlerFacts.ValidDatabaseNotStored`).
- **File ids.** The ids taken from markdown file names are not checked against the id pattern (`ExportsFacts.FileIdUnchecked`).
- **Output-name parse.** The name is split at every `_v`, not only the first one. A version or model containing `_v` is therefore cut short, and `Analysis.OutputNameRoundTrip` requires that neither contains it.
- **Retries.** No Gemini call is retried: `max_attempts` is never used.
- **Analysis filter.** The answers index is a plain `{}` object, and the filter tests `answersIndex[note.id]` (`gui/src/App.js:49-50`, `:212`). An id that names an inherited `Object.prototype` property, such as `constructor` or `toString`, is therefore truthy with no answers behind it. File ids are not checked, so a file named `Notes constructor.md` gives such a note, and the analysis filter keeps it (`App.InheritedNamePassesAnalysisFilter`).

## Model

| member | source | states |
|---|---|---|
| Transport.ParseInt | cli/notion_cli.py:38 | `int()` accepts a plain digit string with its value and rejects blank text |
| Transport.RetryAfterSeconds | cli/notion_cli.py:38 | a missing `Retry-After` header means 1 second; a present one is usable exactly when `int()` accepts it |
| Transport.FirstServed | cli/notion_cli.py:37-43 | the first reply that is not a 429, with every reply before it a 429 |
| Transport.Serve | cli/notion_cli.py:37-43 | sleeps at most once per leading 429, never for a negative time; a returned reply is the first non-429, after one sleep per 429, and its status is not 400-599 |
| Transport.RequestWithRateLimit | cli/notion_cli.py:29-43 | the retry loop ends with exactly the reply or exception, and the sleeps, that the transport function gives |
| Transport.Exchange | cli/notion_cli.py:29-43 | a request succeeds only for GET or POST, with the first reply that is not a 429, and only when that reply's status does not raise; it sleeps at most once per 429 before it, never for a negative time |
| Transport.ServeSleepsOncePer429 | cli/notion_cli.py:37-43 | with usable delays, one sleep per 429 of its `Retry-After` seconds, then the first other reply is returned, or raised when its status is 400-599 |
| Transport.UnsupportedMethodRaises | cli/notion_cli.py:31-36 | a method other than GET or POST raises `ValueError` before any sleep |
| Transport.DefaultDelayIsOneSecond | cli/notion_cli.py:37-43 | a 429 without `Retry-After` followed by a good reply gives one sleep of 1 second and that reply |
| Discovery.FlattenPrefix | cli/notion_cli.py:125-143 | collecting one more page appends its results at the end |
| Discovery.Classify | cli/notion_cli.py:128-138 | the sorted children are never more than the blocks they came from |
| Discovery.RowIds | cli/notion_cli.py:153-155 | the kept row ids are never more than the query entries |
| Discovery.ListChildren | cli/notion_cli.py:120-144 | the loop's result is the classification of all pages' results in arrival order, and each request carries the previous page's `next_cursor` as `start_cursor` |
| Discovery.ListDatabaseRows | cli/notion_cli.py:146-161 | the loop returns the page entries' ids in arrival order, following the cursors the same way |
| Discovery.ClassifyResults | cli/notion_cli.py:128-138 | scanning one page of results extends the page and database lists exactly as classifying the results seen so far followed by this page |
| Discovery.CollectRowIds | cli/notion_cli.py:153-155 | scanning one page of query results extends the row ids exactly as collecting them over the results seen so far followed by this page |
| Discovery.ClassifyAppend | cli/notion_cli.py:125-143 | classification is independent of page boundaries: a concatenation classifies as the two halves joined |
| Discovery.ClassifyMembership | cli/notion_cli.py:128-138 | a child is listed as a page (a database) exactly when a block of type `child_page` (`child_database`) has its id and title, with `""` for a missing title |
| Discovery.RowIdsMembership | cli/notion_cli.py:153-155 | an id is kept exactly when some entry with that id has `object == "page"` |
| PageStore.Lookup | cli/notion_cli.py:104-107 | a row is returned exactly when the id is stored, and it is the stored row |
| PageStore.Upserted | cli/notion_cli.py:92-102 | the metadata columns come from the arguments; content comes from the argument unless it is null, and then the stored content is kept |
| PageStore.Save | cli/notion_cli.py:92-102 | the saved id is added or replaced with the upserted row; every other row and the error log are unchanged; the write is recorded last |
| PageStore.LogError | cli/notion_cli.py:109-113 | one error is appended at the end and the pages are untouched |
| PageStore.MetadataSaveKeepsContent | cli/notion_cli.py:92-102 | a later save without content takes the new metadata and keeps the content of an earlier save |
| PageStore.SaveIdempotent | cli/notion_cli.py:92-102 | repeating a save leaves the pages exactly as the first save left them |
| PageStore.Store.constructor | cli/notion_cli.py:57-90 | a fresh store is empty |
| PageStore.Store.GetPage | cli/notion_cli.py:104-107 | returns the lookup of the current tables |
| PageStore.Store.SavePage | cli/notion_cli.py:92-102 | the new tables are the old tables with the save applied |
| PageStore.Store.SaveCrawlError | cli/notion_cli.py:109-113 | the new tables are the old ones with the error appended |
| Workspace.ChildIds | cli/notion_cli.py:193-201 | the ids of the discovered children, in order |
| Workspace.ChildIdsBelow | cli/notion_cli.py:193-201 | the ids a page lists all rank below it, so the recursion ends |
| Workspace.PageKids | cli/notion_cli.py:192 | in a well-founded workspace, every child page and child database a listing yields ranks below the listing page |
| Workspace.DetectIdType | cli/notion_cli.py:45-54 | database when the database probe answers 200, page when only the page probe does, otherwise the "neither" error, so the database endpoint wins |
| Workspace.FetchMetadata | cli/notion_cli.py:163-175 | metadata comes from the endpoint of the detected type, and a failed detection is its error |
| Workspace.AbsentIdUndetectable | cli/notion_cli.py:45-54 | an id the workspace does not know fails with the "neither" error |
| Crawler.CrawlMetadata | cli/notion_cli.py:177-246 | the recursive crawl ends with exactly the outcome and tables of the crawl function, which the facts below describe |
| Crawler.CrawlChildren | cli/notion_cli.py:193-201 | the child loop, and the row loop, end as the loop function does: stored children are skipped and an exception ends the loop |
| Crawler.CrawlDatabases | cli/notion_cli.py:202-246 | the database loop ends as its function does, and nothing escapes it |
| Crawler.CrawlDatabase | cli/notion_cli.py:211-246 | one database gets a placeholder and an error when it is inaccessible or its rows fail, and otherwise its rows are crawled under it |
| Crawler.Visit | cli/notion_cli.py:177-246 | a node whose metadata cannot be fetched never raises: the visit completes |
| Crawler.VisitChildren | cli/notion_cli.py:193-201 | when every child is already stored under the container, the loop completes and changes nothing, in either mode |
| Crawler.VisitDatabases | cli/notion_cli.py:202-209 | when every database is already stored under the page, the loop changes nothing, in either mode |
| Crawler.VisitDatabase | cli/notion_cli.py:224-234 | a valid database whose rows can be listed and are all stored under it changes nothing |
| Crawler.CrawlChild | cli/notion_cli.py:193-201 | one pass of the child loop: an exception ends it in the outcome and tables the loop function gives; otherwise the rest of the loop from the new tables ends as the whole loop from the old ones |
| CrawlerFacts.ExtendsTransitive | cli/notion_cli.py:177-246 | "crawling extends the tables" composes |
| CrawlerFacts.SaveExtends | cli/notion_cli.py:190 | a metadata save without content extends the tables |
| CrawlerFacts.SameFromTransitive | cli/notion_cli.py:177-246 | "no row at or above a rank changed" composes |
| CrawlerFacts.SaveSameFrom | cli/notion_cli.py:190 | a save touches only its own row |
| CrawlerFacts.RecordDatabaseFailureExtends | cli/notion_cli.py:211-223 | a database placeholder plus its error extends the tables |
| CrawlerFacts.VisitFacts | cli/notion_cli.py:177-246 | a visit never removes a row or alters content, only appends errors and writes, and never changes a row ranked above the node |
| CrawlerFacts.VisitChildrenFacts | cli/notion_cli.py:193-201 | the child loop extends the tables and leaves rows at or above the container's rank alone |
| CrawlerFacts.VisitDatabasesFacts | cli/notion_cli.py:202-246 | the database loop extends the tables and leaves rows at or above the page's rank alone |
| CrawlerFacts.VisitDatabaseFacts | cli/notion_cli.py:202-246 | one database extends the tables and leaves rows at or above the page's rank alone |
| CrawlerFacts.MetadataFailureRecorded | cli/notion_cli.py:178-184 | a metadata failure appends exactly one error (id, parent, message, "NA", "NA") and writes a placeholder with "NA" timestamps and the old content, without descending |
| CrawlerFacts.UnchangedNodeSkipped | cli/notion_cli.py:185-188 | in normal mode, a stored edit time equal to the fetched one means no write and no descent |
| CrawlerFacts.NodeWrittenFirst | cli/notion_cli.py:185-192 | a node that is not skipped (always so when resuming) is the first write of its visit, before any child, and its row is still the fetched metadata at the end |
| CrawlerFacts.CrawlIdempotent | cli/notion_cli.py:185-188 | once a node has been crawled in either mode, a normal-mode crawl of it changes nothing |
| CrawlerFacts.CrawlKeepsContent | cli/notion_cli.py:190 | the crawl never alters stored content, and the rows it creates carry none |
| CrawlerFacts.StoredChildSkipped | cli/notion_cli.py:195-200 | a child already stored under the container is passed over, in both modes |
| CrawlerFacts.ChildExceptionPropagates | cli/notion_cli.py:193-201 | an exception in a child's visit ends the loop, and later siblings are not visited |
| CrawlerFacts.ListingFailureRaises | cli/notion_cli.py:189-192 | a node that is fetched and not skipped, but whose children listing fails, raises that listing's error out of the crawl of that node |
| CrawlerFacts.ValidDatabaseNotStored | cli/notion_cli.py:224-246 | a valid database whose rows crawl cleanly gets no row of its own |
| CrawlerFacts.DatabaseFailureRecorded | cli/notion_cli.py:202-246 | an inaccessible database, or one whose query or rows raise, ends with a placeholder under the page and one error naming it, logged last; its message is the fixed inaccessible-database text, the query's error or the row crawl's exception message |
| CrawlerFacts.SavedNodeFacts | cli/notion_cli.py:189-246 | a node that is fetched and not skipped extends the tables and changes no row ranked above it |
| CrawlerFacts.VisitStoresNode | cli/notion_cli.py:177-190 | after a visit the node has a row: its placeholder after a metadata failure, its stored row when skipped, its saved row otherwise |
| CrawlerFacts.CompletedChildrenStored | cli/notion_cli.py:193-201 | when the child loop completes, every listed child has a row |
| CrawlerFacts.StoredDatabaseSkipped | cli/notion_cli.py:203-209 | a database already stored under the page is passed over in either mode: the loop goes on with the rest exactly as if it were not listed |
| Exports.ExtractNotionId | cli/notion_cli.py:289-295 | an id is found only after a space, it matches the id pattern, and the name ends with it |
| Exports.FileNoteId | cli/notion_cli.py:320-327 | a file's id is the space-free word between the last space and `.md` |
| Exports.EnsureParent | cli/notion_cli.py:296-308 | returns the id the directory name ends in and leaves it stored; existing rows are unchanged |
| Exports.IsNotionId | cli/notion_cli.py:289 | an id has at least 32 characters and no space |
| Exports.IntegrateFileOutcome | cli/notion_cli.py:318-344 | a file is counted exactly when it names an id, has non-blank text, and its row is missing or blank; it then stores the trimmed text with null timestamps under the directory's id, and otherwise nothing changes |
| Exports.IntegrateFile | cli/notion_cli.py:319-344 | a file adds at most one note, logs no error and writes exactly one row for a note it counts |
| Exports.IntegrateEntry | cli/notion_cli.py:310-344 | an entry adds at most one note per markdown file of a directory and none for a plain file; it logs no error and writes at least one row per counted note |
| Exports.Integrate | cli/notion_cli.py:287-345 | integration logs no error and writes at least one row per counted note |
| Exports.IntegrateFiles | cli/notion_cli.py:318-344 | a directory adds at most one note per file, logs no error and writes exactly one row per counted note |
| Exports.IntegrateMarkdownFile | cli/notion_cli.py:319-344 | one markdown file: the count it adds and the new tables are those of integrating that file into the old tables |
| Exports.IntegrateDirectoryFiles | cli/notion_cli.py:318-344 | the files of one export directory, in order: the total added and the final tables are those of integrating the files one after another |
| Exports.EnsureParentInDb | cli/notion_cli.py:296-308 | the method ends with the id and tables the function gives |
| Exports.IntegrateExports | cli/notion_cli.py:287-345 | the method returns the count and leaves the tables the integration function gives |
| ExportsFacts.NotionIdOfName | cli/notion_cli.py:289-295 | any name ending in a space and an id (32 hex digits, or the RFC 4122 layout) yields that id |
| ExportsFacts.LastWordDecides | cli/notion_cli.py:291-295 | when the last word is not an id, none is found, even if one occurs earlier in the name |
| ExportsFacts.FileIdUnchecked | cli/notion_cli.py:320-327 | a markdown file's last word is its id, whatever it is |
| ExportsFacts.EnsureParentWritesAncestorsFirst | cli/notion_cli.py:296-308 | it writes only ids named along the path, outermost first, ending with the directory's own id |
| ExportsFacts.EnsureParentStoredNoWrite | cli/notion_cli.py:303-305 | an already-stored id is returned without a write |
| ExportsFacts.IntegrateFilesKeepsTexts | cli/notion_cli.py:318-344 | a directory's files never drop a row or overwrite one with text |
| ExportsFacts.IntegrateEntryKeepsTexts | cli/notion_cli.py:310-344 | one export entry never drops a row or overwrites one with text |
| ExportsFacts.IntegrateKeepsTexts | cli/notion_cli.py:287-345 | integration never drops a row or overwrites a page that has text |
| ExportsFacts.SettledFilesUnchanged | cli/notion_cli.py:318-344 | files whose notes already have text change nothing and count nothing |
| ExportsFacts.SettledUnchanged | cli/notion_cli.py:287-345 | an export whose notes and directories are all stored changes nothing |
| ExportsFacts.FileSettledKept | cli/notion_cli.py:318-344 | a file's note that has text keeps it as the tables grow |
| ExportsFacts.IntegrateFileSettles | cli/notion_cli.py:318-344 | after a file with an id and text, its note is stored with text |
| ExportsFacts.IntegrateFilesSettles | cli/notion_cli.py:318-344 | after a directory, each of its files' notes is stored with text |
| ExportsFacts.IntegrateEntrySettles | cli/notion_cli.py:310-344 | after an entry, its directory id and its files' notes are stored |
| ExportsFacts.SettledKept | cli/notion_cli.py:287-345 | a settled export stays settled as the tables grow |
| ExportsFacts.IntegrateSettles | cli/notion_cli.py:287-345 | after integration, every directory id and every note with text is stored |
| ExportsFacts.IntegrateIdempotent | cli/notion_cli.py:287-345 | integrating the same export a second time adds no note and writes nothing |
| LegacyCrawler.LegacySave | cli/get_notion_metadata.py:37-41 | the id's row is added or replaced, every other row is kept, and the write is recorded |
| LegacyCrawler.LegacySaveReplaces | cli/get_notion_metadata.py:37-41 | a second save of an id replaces all four columns of the first one |
| LegacyCrawler.LegacyStore.constructor | cli/get_notion_metadata.py:25-35 | a fresh legacy store is empty |
| LegacyCrawler.LegacyStore.GetPage | cli/get_notion_metadata.py:43-46 | a row is returned exactly when the id is stored, and it is the stored row |
| LegacyCrawler.LegacyStore.SavePage | cli/get_notion_metadata.py:37-41 | the new table is the old one with the plain upsert applied |
| LegacyCrawler.CrawlPageTree | cli/get_notion_metadata.py:123-144 | the recursive crawl ends with exactly the outcome and table of its function |
| LegacyCrawler.CrawlChildPages | cli/get_notion_metadata.py:132-133 | the child loop, and the row loops, visit every id in order, with no skip, and stop at an exception |
| LegacyCrawler.CrawlChildDatabases | cli/get_notion_metadata.py:134-144 | the database loop ends as its function does: invalid databases are passed over and row failures are swallowed |
| LegacyCrawler.RunMain | cli/get_notion_metadata.py:159-170 | the entry point ends as the dispatch function does: a page root is crawled with no parent, and each row of a database root is crawled under the root |
| LegacyCrawler.CrawlTree | cli/get_notion_metadata.py:123-125 | the legacy crawl does not catch a metadata failure: it raises |
| LegacyCrawler.Main | cli/get_notion_metadata.py:159-170 | the run completes only when the root's type is detected; a page root whose metadata fails raises |
| LegacyFacts.GrowsTransitive | cli/get_notion_metadata.py:123-144 | "legacy crawling grows the table" composes |
| LegacyFacts.SameFromTransitive | cli/get_notion_metadata.py:123-144 | "no row at or above a rank changed" composes |
| LegacyFacts.CrawlTreeFacts | cli/get_notion_metadata.py:123-144 | a legacy visit keeps every row, only appends writes, stores only page-endpoint metadata, and leaves rows ranked above the node alone |
| LegacyFacts.CrawlEachFacts | cli/get_notion_metadata.py:132-133 | the child loop has the same growth and rank guarantees |
| LegacyFacts.CrawlDatabaseRowsFacts | cli/get_notion_metadata.py:134-144 | the database loop has the same growth and rank guarantees |
| LegacyFacts.LegacyRowsFromPageEndpoint | cli/get_notion_metadata.py:159-170 | every row the legacy run stores was read from the page endpoint, with no placeholders |
| LegacyFacts.DatabaseRootNeverStored | cli/get_notion_metadata.py:165-169 | a database given as the root never gets a row |
| LegacyFacts.MetadataFailureEscapes | cli/get_notion_metadata.py:125 | a metadata failure escapes with nothing written |
| LegacyFacts.UnreadableDatabaseSkipped | cli/get_notion_metadata.py:134-144 | an invalid database, or one whose query fails, is passed over without a write |
| LegacyFacts.LegacyNodeWritten | cli/get_notion_metadata.py:123-131 | a node whose stored edit time differs is written before anything beneath it and keeps its fetched row |
| LegacyFacts.LegacyCrawlIdempotent | cli/get_notion_metadata.py:124-128 | a second legacy crawl of a readable node changes nothing |
| LegacyFacts.SkipRulesDiffer | cli/get_notion_metadata.py:123-133 | a child already stored under its container, whose edit time has since changed, is skipped by the incremental crawl but rewritten by the legacy one |
| Gemini.LoadQuestions | cli/gemini_utils.py:19-29 | no version means "1"; a missing file is an error naming it; otherwise the instructions and questions come from the file, with the file's `version` field as the label, or "v" plus the version |
| Gemini.NumberedLines | cli/gemini_utils.py:32 | question k (1-based) becomes the line "k. q", in input order |
| Gemini.JoinContainsItem | cli/gemini_utils.py:32 | every joined item occurs in the joined text |
| Gemini.PromptExtends | cli/gemini_utils.py:33-37 | what the instructions and the numbered block contain, the prompt contains |
| Gemini.PromptHasParts | cli/gemini_utils.py:31-38 | the prompt holds the instructions, every numbered question line, the note and the JSON template's opening |
| Gemini.BuildPrompt | cli/gemini_utils.py:31-38 | the prompt starts with a line break, the instructions and the questions heading, and ends with the output-format template |
| Gemini.QuestionLineIsOneLine | cli/gemini_utils.py:32 | a single-line question gives a single-line numbered line |
| Gemini.NumberedBlockLines | cli/gemini_utils.py:32 | the numbered block splits back into exactly the numbered lines |
| Gemini.Pow10 | cli/gemini_utils.py:48-50 | powers of ten are positive |
| Gemini.ParseRetryDelay | cli/gemini_utils.py:41-52 | falsy arguments give 10.0, a non-zero number is itself, and a non-empty string is parsed with its `s` characters removed, falling back to 10.0 |
| Gemini.DigitsAreTrimmed | cli/gemini_utils.py:47-50 | a digit string has no padding, sign, point or `s` |
| Gemini.ParseUnsignedWhole | cli/gemini_utils.py:48-50 | `float()` of a digit string is its value |
| Gemini.ParseUnsignedFraction | cli/gemini_utils.py:48-50 | `float()` of digits, a point and digits is whole part plus fraction |
| Gemini.ParseFloatUnsigned | cli/gemini_utils.py:48-50 | an unpadded unsigned numeral parses the same with or without the sign step |
| Gemini.WholeParses | cli/gemini_utils.py:48-50 | a rendered whole number reads back as its value |
| Gemini.FractionParses | cli/gemini_utils.py:48-50 | a rendered number with a fraction reads back as its value |
| Gemini.RemoveTrailingS | cli/gemini_utils.py:47-48 | removing the `s` characters strips a unit suffix |
| Gemini.RetryDelayWholeSeconds | cli/gemini_utils.py:41-52 | "&lt;n&gt;s" gives n seconds |
| Gemini.RetryDelayFractionalSeconds | cli/gemini_utils.py:41-52 | "&lt;n&gt;.&lt;frac&gt;s" gives its fractional number of seconds |
| Gemini.RetryDelayFiveSeconds | cli/gemini_utils.py:41-52 | "5s" gives 5.0 |
| Gemini.RetryDelayTwoAndAHalfSeconds | cli/gemini_utils.py:41-52 | "2.5s" gives 2.5 |
| Gemini.UnparsableDelayDefaults | cli/gemini_utils.py:45-52 | a non-empty string without digits falls back to 10.0 |
| Gemini.NoDigitFloat | cli/gemini_utils.py:48-50 | a text without any digit is never accepted as a number |
| Gemini.StripFences | cli/gemini_utils.py:98-102 | the stripped reply has no surrounding whitespace |
| Gemini.OpeningFenceDropped | cli/gemini_utils.py:99-100 | removing the opening fence of a fenced text leaves the body without leading whitespace, followed by the closing fence |
| Gemini.ClosingFenceDropped | cli/gemini_utils.py:101-102 | removing the closing fence then leaves the trimmed body |
| Gemini.TrimFenced | cli/gemini_utils.py:98 | trimming a padded fenced reply removes only the padding |
| Gemini.TrimBeforeClosingFence | cli/gemini_utils.py:101-102 | trimming before a closing fence trims only the front |
| Gemini.FencedReplyStripped | cli/gemini_utils.py:97-103 | a padded "```json" + body + "```" reply gives the trimmed body |
| Gemini.UnfencedReplyTrimmed | cli/gemini_utils.py:97-103 | a reply without fences is only trimmed |
| Gemini.LastRetryInfoWins | cli/gemini_utils.py:70-75 | the delay is that of the last RetryInfo detail, or "unknown" when there is none |
| Gemini.Annotate | cli/gemini_utils.py:108-110 | the record gets the set's label, the model and the date, overwriting those keys and keeping every other key and value |
| Gemini.RetryDelayOf | cli/gemini_utils.py:70-75 | the loop over the details computes the last RetryInfo delay |
| Gemini.CallGemini | cli/gemini_utils.py:58-111 | the record it returns, or the exception it raises, is the one the call specification gives for that reply, parser and time |
| Gemini.CallRecordAnnotated | cli/gemini_utils.py:58-111 | every record returned carries the set label, the model and the date; the call raises exactly when `generate_content` raises something other than a `ClientError` (with that exception's message) or the stripped reply parses to something other than an object |
| Gemini.CallRecord | cli/gemini_utils.py:63-94 | a client error never raises: it gives a record carrying the set label, the model and the date |
| Gemini.ClientErrorsClassified | cli/gemini_utils.py:63-94 | a client error is never raised; with both "429" and "RESOURCE_EXHAUSTED" in its text it reports the quota error, status 429 and the last RetryInfo delay, otherwise "API error" with the error text and no status |
| Gemini.ParsedObjectKept | cli/gemini_utils.py:103-110 | a reply that parses to an object keeps every key and value the model returned other than the three annotation keys |
| Gemini.UnparsableReplyRecorded | cli/gemini_utils.py:104-105 | a reply that does not parse is recorded with the parser's message and the reply as received, before stripping |
| Gemini.StripReply | cli/gemini_utils.py:98-102 | the three reassignments of the reply text compute the fence-stripped text |
| Analysis.QuestionsFileNameMatches | cli/notion_cli.py:431-434 | `questions_v<digits>.json` plus any tail matches with the digits' value |
| Analysis.QuestionsFileVersion | cli/notion_cli.py:432-434 | a version is read only from a name that starts with `questions_v` and a digit |
| Analysis.MatchedNameIsQuestionsFile | cli/notion_cli.py:431-434 | a matching name starts with a question file name |
| Analysis.Versions | cli/notion_cli.py:430-434 | the matched numbers are at most one per file |
| Analysis.VersionsMembership | cli/notion_cli.py:430-434 | a number is listed exactly when some file matches with it |
| Analysis.VersionListed | cli/notion_cli.py:430-434 | the number of every matching question file name is among the versions |
| Analysis.VersionFromFile | cli/notion_cli.py:430-434 | every version listed comes from some matching question file name |
| Analysis.MaxOf | cli/notion_cli.py:435-436 | the maximum is listed and bounds every entry |
| Analysis.LatestQuestionsVersion | cli/notion_cli.py:427-438 | with no question file the version is "1"; otherwise it is the highest file number, rendered in decimal |
| Analysis.LatestVersionReadsBack | cli/notion_cli.py:427-438 | the chosen version's file name reads back as the highest number |
| Analysis.SelectNotes | cli/notion_cli.py:442-443 | at most one note per row |
| Analysis.SelectNotesMembership | cli/notion_cli.py:442-443 | a note is selected exactly when its row has content that is not all spaces |
| Analysis.Analyze | cli/notion_cli.py:444-457 | the model is called at most once per note |
| Analysis.AnalyzeSkips | cli/notion_cli.py:445-452 | a note whose output file records this set and model is skipped |
| Analysis.AnalyzeCalls | cli/notion_cli.py:455-457 | an unprocessed note is sent to the model; its record is written to its file, or the model's exception ends the run |
| Analysis.AnalyzeNotes | cli/notion_cli.py:425-458 | the run uses the version asked for, or else the latest question set, and ends as the analysis function does on the selected notes |
| Analysis.AnalyzeEach | cli/notion_cli.py:444-457 | the loop ends with the calls, outputs and exception of the analysis function |
| Analysis.AnalyzeNote | cli/notion_cli.py:444-457 | one note: either the run ends here with exactly the overall outcome, or no exception was raised and what remains of the run is the analysis of the other notes |
| Analysis.ProcessedStays | cli/notion_cli.py:444-457 | a processed note stays processed |
| Analysis.AnalyzeSettles | cli/notion_cli.py:444-457 | a run that ends normally, with records labelled for its set, leaves every note processed |
| Analysis.SettledSkipsAll | cli/notion_cli.py:445-452 | when every note is processed, the run calls nothing and writes nothing |
| Analysis.RerunCallsNothing | cli/notion_cli.py:444-457 | after a clean run with well-labelled records, a second run calls nothing |
| Analysis.GeminiCallsMatchLabels | cli/gemini_utils.py:54-111 | when the question file has no `version` field, every record the model call returns is labelled "v" plus the version asked for, the label the skip test looks for |
| Analysis.Ids | cli/notion_cli.py:444 | the note ids in order |
| Analysis.MislabelledRunsRepeat | cli/notion_cli.py:450-457 | when the records do not name this set and model, every note is sent again on each run and none becomes processed |
| Analysis.MislabelledKeepsUnprocessed | cli/notion_cli.py:450-457 | an unprocessed note stays unprocessed under mislabelled records |
| Analysis.StripOutputAffixes | cli/notion_cli.py:465-468 | parsing a name is parsing what lies between `gemini_` and `.json` |
| Analysis.ParseOutputName | cli/notion_cli.py:465-473 | a name parses only when it starts with `gemini_` and ends with `.json`, and then its version starts with "v" |
| Analysis.ParseOutputBase | cli/notion_cli.py:468-473 | a parsed version starts with "v", and the model has no `_` left (each became `-`) |
| Analysis.FindFirstAt | cli/notion_cli.py:469 | the first occurrence is the one with no earlier occurrence |
| Analysis.NotContainedNowhere | cli/notion_cli.py:469 | a string not contained occurs at no index |
| Analysis.SplitAtId | cli/notion_cli.py:469-470 | an id without `_v` ends at the first `_v` |
| Analysis.SplitVersionModel | cli/notion_cli.py:471-472 | a version without `_` runs to the first `_`, and the rest is the model |
| Analysis.OutputFileNameShape | cli/notion_cli.py:445 | the written name is `gemini_` + id + `_v` + version + `_` + model + `.json` |
| Analysis.OutputNameRoundTrip | cli/notion_cli.py:465-473 | a written name parses back to the id, "v" + version and the model with `_` turned into `-`, when no part contains `_v` |
| Analysis.NoUnderscoreNoV | cli/notion_cli.py:469 | a name without `_` that does not start with `v` puts no `_v` after a leading `_` |
| Analysis.ReplaceAbsent | cli/notion_cli.py:473 | replacing a character that does not occur changes nothing |
| Analysis.ModelNameClean | cli/gemini_utils.py:17 | the model name has no `_` and no `_v` |
| Analysis.WrittenOutputsReadBack | cli/notion_cli.py:445 | every file the analysis writes reads back as its note, "v" + version and the model |
| Analysis.Answers | cli/notion_cli.py:480 | the answers are the record without its three annotation keys, with every other value kept |
| Analysis.LoadGeminiOutputs | cli/notion_cli.py:461-487 | the loader counts and stores each parsable file's answers under (id, version, model); a raising file leaves the table as it was, since nothing is committed |
| Analysis.LoadOutputs | cli/notion_cli.py:464-486 | at most one count per file, and loading never removes a key from the table |
| Analysis.LoadedUnderItsKey | cli/notion_cli.py:461-487 | loading a file the analysis wrote stores its answers under its note, set and model |
| Backend.ToNote | gui_backend.py:38 | a row's columns map to the note's fields by position |
| Backend.GetNotes | gui_backend.py:33-40 | one note per row, in row order |
| Backend.GetNote | gui_backend.py:42-51 | the result is 404 "Note not found" exactly when no row has the id, and otherwise the first row with it |
| Backend.GetNoteInNotes | gui_backend.py:42-51 | a found note is in the list and has the requested id |
| Backend.ParentsAreRowParents | gui_backend.py:80-82 | the parents are exactly the parent ids the rows carry |
| Backend.GetHierarchy | gui_backend.py:71-83 | the keys are exactly the parent ids present, with None for roots, and each key lists its children's ids in row order |
| Backend.ChildrenHaveParent | gui_backend.py:80-82 | a non-empty child list belongs to a parent that is present |
| Backend.EachRowListedOnce | gui_backend.py:80-82 | an id is listed under a parent exactly as often as rows pair it with that parent |
| Backend.HierarchyKeysHaveChildren | gui_backend.py:80-82 | a parent is a key exactly when its list is non-empty |
| App.FirstLine | gui/src/App.js:243 | the first line is a prefix with no line break, ended by one when shorter |
| App.DropHashes | gui/src/App.js:244 | a suffix with the leading `#` run removed |
| App.GetNoteTitle | gui/src/App.js:241-245 | a title is never empty and has no line break; missing or empty content gives "Untitled" |
| Text.TrimKeeps | gui/src/App.js:244 | trimming keeps only characters of its argument |
| Text.Trim | cli/notion_cli.py:329 | the result has no whitespace at either end |
| App.DropHashesOf | gui/src/App.js:244 | `#`s followed by text not starting with `#` leave that text |
| App.FirstLineOf | gui/src/App.js:243 | the first line of a line, a break and more is that line |
| App.HeadingTitle | gui/src/App.js:241-245 | a heading's title is its text after the marks, trimmed |
| App.HeadingLineTitle | gui/src/App.js:244 | stripping the marks from a heading line and trimming gives its trimmed text |
| App.NoBreakInHeading | gui/src/App.js:243 | a heading line has no line break |
| App.StripHeadingOf | gui/src/App.js:244 | the marker replace removes the marks and the whitespace after them |
| App.PlainTitle | gui/src/App.js:241-245 | a first line that is not a heading gives itself, trimmed |
| App.MarkerOnlyUntitled | gui/src/App.js:241-245 | a first line of only marks and whitespace gives "Untitled" |
| App.QuestionNumber | gui/src/App.js:268 | no number exactly when no `q` is followed by a digit; otherwise the whole digit run after the first such `q` |
| App.GetQuestionForKey | gui/src/App.js:261-282 | no version or no question number gives "Unknown question"; otherwise question n of the version's list (with a `v` prefix added when missing), or "Question not found" |
| App.VersionPrefixOptional | gui/src/App.js:261-282 | versions "1" and "v1" give the same question |
| App.NumberedKeyAnswers | gui/src/App.js:261-282 | the key `q<n>` gives question n (1-based) of the version's list when it exists |
| App.QuestionsMatchAt | gui/src/App.js:76 | a match at the start yields the digits of a question file name |
| App.QuestionsMatch | gui/src/App.js:74-77 | a match anywhere yields a non-empty digit run |
| App.ExtractVersions | gui/src/App.js:73-79 | at most one version per file name |
| App.ExtractVersionsAppend | gui/src/App.js:73-79 | listing order is kept: a concatenation lists as the two lists joined |
| App.QuestionsFileListed | gui/src/App.js:73-79 | `questions_v<d>.json` is listed as "v" + d, leading zeros kept |
| App.CliVersionsListed | gui/src/App.js:73-79 | every file the command line counts as a question set is listed with the same number |
| App.PrefixedNameListedOnly | gui/src/App.js:73-79 | the front end's unanchored match lists a prefixed name that the command line never picks |
| App.FiltersKeepOrder | gui/src/App.js:201-213 | both filters keep relative order |
| App.FilterNotes | gui/src/App.js:201-213 | never more notes than given, and with both switches off the list is unchanged |
| App.WithContentAppend | gui/src/App.js:204-208 | the content filter distributes over concatenation |
| App.AnalysedAppend | gui/src/App.js:211-213 | the analysis filter distributes over concatenation |
| App.WithContentMembers | gui/src/App.js:204-208 | the content filter keeps exactly the notes with non-blank content |
| App.AnalysedMembers | gui/src/App.js:211-213 | the analysis filter keeps exactly the notes whose id is in the answers index or names a property inherited from `Object.prototype` |
| App.FilterNotesMembers | gui/src/App.js:201-213 | the filtered notes are exactly the notes passing the switched-on filters (the analysis test includes the inherited property names), and none is added |
| App.InheritedNamePassesAnalysisFilter | gui/src/App.js:49-50 | a note whose id is an inherited `Object.prototype` name passes the analysis filter whatever the index holds, even an empty one |
| App.ToggleSortDirection | gui/src/App.js:186-188 | the result is "asc" or "desc" and differs from a valid direction |
| App.ToggleTwice | gui/src/App.js:186-188 | two toggles restore a valid direction |
| App.ViewModeForTab | gui/src/App.js:191-196 | a view mode exactly for tabs 0 to 3: all, metadata, content, analysis |
| App.ViewModesDistinct | gui/src/App.js:191-196 | different tabs show different views |

## Left out

- HTTP calls, the Gemini client and browser `fetch` are not modelled. The remote workspace is an immutable map of answers per id, the transport is a script of replies, and the model call is a given reply.
- `time.sleep` is not modelled; the durations slept are recorded instead.
- SQLite connections, cursors, commits and schema migration (`cli/notion_cli.py:57-90`) are not modelled. The tables are maps and sequences.
- `json.loads`, `json.dump` and the `eval` in `gui_backend.py` are not modelled. Parsing is a parameter, and records are maps from keys to a small value type.
- Directory scanning and file reading (`os.listdir`, `glob`, `open`) are not modelled. The models take the listings and file contents as inputs.
- Gemini.LoadQuestions: a question file is a well-formed record with string instructions, a list of string questions and an optional string label. The `KeyError` raised when "instructions" or "questions" is missing, the `json.load` error on a malformed file, and a non-string `version` field passed through unchanged (`cli/gemini_utils.py:24-28`) are not modelled.
- Gemini.CallRecord: the reply text is always a string. When `response.text` is `None`, the source's `.strip()` raises inside the `try` and the record carries `"raw": None` (`cli/gemini_utils.py:97-105`); that case is not modelled.
- Gemini.ParseRetryDelay: models `float()` only for plain decimal numerals with an optional sign and padding. Exponents, `inf`/`nan` and underscores are not part of the model.
- Text.Trim: whitespace is the six ASCII characters that both Python's `strip()` and JavaScript's `trim()` remove: space, tab, newline, carriage return, vertical tab and form feed. Python's `strip()`, `int()` and `float()` also remove `\x1c` to `\x1f`, and both languages remove Unicode spaces; none of these are modelled, so `App.GetNoteTitle`, `Gemini.StripFences`, `Gemini.ParseRetryDelay` and `Transport.ParseInt` keep them.
- Exports.IntegrateFile: a markdown body made only of `\x1c` to `\x1f` is blank to Python and skipped by the source (`cli/notion_cli.py:329-331`), but the model stores and counts it, because of the whitespace set above.
- Transport.ParseInt: the underscore digit grouping of `int()` is not modelled. A `Retry-After` value such as `1_0`, which Python reads as 10, is a `ValueError` in the model.
- Transport.Serve and Transport.RequestWithRateLimit: the retry loop (`while True`, `cli/notion_cli.py:29-43`) is unbounded and never ends while the server keeps answering 429. The model covers only reply scripts that eventually give a reply other than 429 (`Transport.EventuallyServes`).
- Transport: a negative `Retry-After` value makes `time.sleep` raise. The model states the sleep guarantees only for usable delays.
- Workspace.WellFounded: the crawl has no depth bound and no cycle guard. Termination is proved only for workspaces whose listings form a finite tree, which is an assumption about the remote.
- Discovery: pagination is modelled on answers whose every page chains to the next. A request failing partway through a listing is modelled as the whole listing failing.
- Exception messages (`str(e)`) are opaque strings taken from the workspace's answers.
- The diagnostic fetches (`get_page_title`, `get_first_block`, `get_database_title`, `get_first_db_row`) are opaque producers of the title and diagnostic columns. The model records the workspace's opaque title and first-row strings, which are "NA" when the fetch fails.
- The first `load_gemini_outputs` (`cli/notion_cli.py:379`) is not modelled: it is redefined later in the file and never runs.
- `batch_gemini` is not modelled separately: it repeats the skip rule of `analyze_notes`, which is modelled once.
- `max_attempts` in `call_gemini_api` is unused, so there is no retry loop to model.
- `get_answers` and `get_answers_index` are not modelled: they evaluate stored text with `eval`. The answers index is an input set of ids.
- The `questions` endpoint and the front end's `fetchQuestionVersions` loop are not modelled. The question lists are an input map.
- Sorting in `gui/src/App.js` is not modelled: its comparator is not a consistent order when dates are missing, and it formats with the locale's `Date`.
- React state, rendering, the FastAPI/CORS setup, argparse dispatch (`notion_explorer.py`), process bootstrap (`gui/app.py`) and the module-level `input()` prompts are not modelled. They are UI and process plumbing.
- Backend.GetHierarchy: the JSON response renders the `None` key of the roots as the string key "null". The model keeps the key as `None`, distinct from any parent id.
- Analysis.LoadGeminiOutputs: the answers are kept as a parsed table, not as the `json.dumps` text stored in `answers_json`.
- Analysis.QuestionsFileVersion: Python's `\d` and `int()` also accept non-ASCII decimal digits, so `questions_v١٢.json` counts as version 12 in the source. The model accepts only the ASCII digits `0` to `9` and passes such a file over. JavaScript's `\d` is ASCII only, so for such a file the front end would not list what the command line counts, which `App.CliVersionsListed` states only for ASCII names.
