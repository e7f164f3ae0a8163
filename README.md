# Index synchronisation and search of the scraped-documents backend

The backend (`Maquina_virtual_2/backEnd/main.py`) sits between a MySQL
catalog of scraped documents (`documentos(link, path, ...)`) and an
Elasticsearch index named `db_scrapper`. This project models its
coordination logic with the outside world reduced to plain values:

- the catalog is a `seq<Record>` of `(link, path)` rows, in the order the
  query returns them;
- the file system is a `map<string, string>` from readable paths to their
  text; a path that is not a key cannot be read;
- the index is an object `SearchEngine.SearchIndex` with a `created` flag
  and a `docs: map<string, Doc>`; each client call the service makes
  (`indices.create`, `get`, `index`, `indices.delete`) is a method on it;
- whether the engine refuses a write is the input `rejects` (ids whose
  write raises), and what a search returns is the input
  `engine: Option<seq<Hit>>` (`None` when the call raises).

Modules:

- `Text`: Python's `str.split` on one character and its inverse `join`.
- `Identity`: `obtain_domain_name` (the id is the link unchanged; the
  domain token it computes is modelled and shown to be discarded) and the
  file-name id of `add_link_path`.
- `SearchEngine`: documents, hits and the index object.
- `Lifecycle`: `create_index` (create, or list `(id, title)` of the
  current hits) and `delete`.
- `Reconcile`: `initialize_global_data` and `refresh_indexes`. The loop is
  an imperative method proved equal to the specification function
  `Reconciliation`; the properties of a refresh are lemmas about that
  function.
- `Search`: the projection of `search_root`.
- `Ingest`: `add_link_path`.

A refresh aborts on the first failed read or write (main.py:176-203,
where the only `except` that reports failure wraps the whole loop), and
documents are keyed by their raw link because `obtain_domain_name`
computes a domain token and then returns the link unchanged (main.py:86).

## Model

| member | source | states |
|---|---|---|
| `Text.JoinSplit` | Maquina_virtual_2/backEnd/main.py:359 | Joining the pieces of `s.split(sep)` with `sep` gives back `s`. |
| `Text.SplitJoin` | Maquina_virtual_2/backEnd/main.py:359 | Splitting a `sep`-join of separator-free pieces gives back those pieces. |
| `Identity.NetlocOf` | Maquina_virtual_2/backEnd/main.py:76-77 | The netloc of `scheme://host<path>` is `host` when the path is empty or starts with `/`, `?` or `#`. |
| `Identity.DomainToken` | Maquina_virtual_2/backEnd/main.py:76-83 | The token is the longest dot-free prefix of the netloc with one leading `www.` removed. |
| `Identity.DomainTokenOf` | Maquina_virtual_2/backEnd/main.py:76-83 | The token of `scheme://name.rest<path>` is `name`, so every page of one site shares it. |
| `Identity.DomainTokenIgnoresWww` | Maquina_virtual_2/backEnd/main.py:79-83 | The token is the same with and without a leading `www.`. |
| `Identity.ObtainDomainName` | Maquina_virtual_2/backEnd/main.py:71-86 | The id is the link itself: the domain token the function computes plays no part in its result. |
| `Identity.IdIsInjective` | Maquina_virtual_2/backEnd/main.py:71-86 | The id returned is the link itself, so distinct links never share an id. |
| `Identity.WwwPrefixChangesId` | Maquina_virtual_2/backEnd/main.py:79-86 | Because the token is discarded, `https://www.example.com/a` and `https://example.com/a` get different ids. |
| `Identity.FileNameId` | Maquina_virtual_2/backEnd/main.py:359 | The file-name id is missing exactly when the last `/` segment has no `.`; when present it has no `.` and no `/`. |
| `Identity.FileNameIdOf` | Maquina_virtual_2/backEnd/main.py:359 | A file `first.second<tail>` in any directory gets the id `second`. |
| `Identity.DocstringExample` | Maquina_virtual_2/backEnd/main.py:328-359 | The documented request path ending in `www.youtube.com_24.txt` gets the id `youtube`. |
| `Identity.FileNameWithoutDot` | Maquina_virtual_2/backEnd/main.py:359-363 | A file name without a dot gives no id, so the request fails. |
| `SearchEngine.SearchIndex.Create` | Maquina_virtual_2/backEnd/main.py:128-137 | Creation succeeds exactly on a missing index, which then exists and is empty; otherwise nothing changes. |
| `SearchEngine.SearchIndex.Get` | Maquina_virtual_2/backEnd/main.py:183 | The lookup finds an id exactly when the index exists and holds it. |
| `SearchEngine.SearchIndex.Put` | Maquina_virtual_2/backEnd/main.py:190-195 | An accepted write stores the document under its id and nothing else changes; a refused one changes nothing. |
| `SearchEngine.SearchIndex.Delete` | Maquina_virtual_2/backEnd/main.py:238 | Deletion succeeds exactly when the index existed; afterwards there is no index. |
| `Lifecycle.Inventory` | Maquina_virtual_2/backEnd/main.py:146-152 | One `(id, title)` per hit, in hit order, taken from `_id` and `_source.title`. |
| `Lifecycle.CurrentDocuments` | Maquina_virtual_2/backEnd/main.py:146-152 | The loop builds exactly `Inventory(hits)`. |
| `Lifecycle.CreateIndex` | Maquina_virtual_2/backEnd/main.py:127-159 | A missing index is created empty with `success: True`; an existing one is left unchanged and answered with `current_documents`, or with the failure message when the search raises. |
| `Lifecycle.DeleteIndex` | Maquina_virtual_2/backEnd/main.py:237-242 | `success: True` exactly when an index was deleted; a missing index reports failure. |
| `Lifecycle.InventoryListsStoredDocs` | Maquina_virtual_2/backEnd/main.py:144-152 | When the hits report the index, each listed id is stored and its title is the stored title. |
| `Lifecycle.CreateTwice` | Maquina_virtual_2/backEnd/main.py:122-156 | On a fresh system the first call creates the index and the second reports it as existing, with the listing. |
| `Reconcile.InitializeGlobalData` | Maquina_virtual_2/backEnd/main.py:101-118 | The name list holds each row's link unchanged and the path list each row's path, in catalog order. |
| `Reconcile.NewDoc` | Maquina_virtual_2/backEnd/main.py:190-195 | The document written for a row has the link as title, the file text as content and the link string (not the row) as url. |
| `Reconcile.Step` | Maquina_virtual_2/backEnd/main.py:180-196 | One iteration keeps the rule that a missing index holds no documents, never removes an existing index, and succeeds exactly when the id is already indexed, or the file is readable and the write accepted. |
| `Reconcile.RunFrom` | Maquina_virtual_2/backEnd/main.py:177-203 | The loop over the remaining rows from any state: an aborted state is returned as it is, a successful run started from a running state, and an index that exists keeps existing. |
| `Reconcile.Reconciliation` | Maquina_virtual_2/backEnd/main.py:176-203 | A whole refresh from the index as it was, which never removes an existing index; its properties are the lemmas below. |
| `Reconcile.Refresh` | Maquina_virtual_2/backEnd/main.py:162-203 | The response and the index afterwards are those of `Reconciliation` from the index as it was. |
| `Reconcile.FirstsAndRepeatsPartition` | Maquina_virtual_2/backEnd/main.py:182-196 | Every link goes to exactly one of the two lists: together they are a permutation of the links. |
| `Reconcile.FirstsAreFresh` | Maquina_virtual_2/backEnd/main.py:187-196 | Newly indexed ids were not in the index and are pairwise distinct. |
| `Reconcile.RefreshLandsEachRecordOnce` | Maquina_virtual_2/backEnd/main.py:177-198 | On success each row contributes one entry, in catalog order: to `already_exists` if its link was indexed or on an earlier row, else to `successfully_indexed`. |
| `Reconcile.RepeatedLinkIsAlreadyExisting` | Maquina_virtual_2/backEnd/main.py:182-196 | A link repeated later in the catalog lands in `already_exists`. |
| `Reconcile.RefreshKeepsExistingDocs` | Maquina_virtual_2/backEnd/main.py:182-184 | Whether the refresh succeeds or not, every document already indexed keeps its content. |
| `Reconcile.RefreshWritesNewDocs` | Maquina_virtual_2/backEnd/main.py:187-196 | On success the index keys are the old keys plus the catalog's links, and each new row is stored under its link with title the link, content the file text and url the link. |
| `Reconcile.RefreshIsIdempotent` | Maquina_virtual_2/backEnd/main.py:177-199 | A second refresh over the same catalog succeeds whatever the files and engine do, indexes nothing, lists every link under `already_exists` and leaves the index as it was. |
| `Reconcile.RefreshAbortKeepsEarlierWrites` | Maquina_virtual_2/backEnd/main.py:176-203 | A failed refresh stopped at one row whose file was unreadable or whose write was refused. The rows before it went through, and their writes stay. No later row was touched. |
| `Search.StoredEntries` | Maquina_virtual_2/backEnd/main.py:266-274 | One entry per hit, in hit order, with `maintitle = _source.title`, `link = _source.url` and `content = _source.content` verbatim. |
| `Search.HighlightedEntries` | Maquina_virtual_2/backEnd/main.py:304-313 | Defined exactly when every hit has highlight fragments; then one entry per hit, in order, with the fragments as content. |
| `Search.SearchRoot` | Maquina_virtual_2/backEnd/main.py:260-319 | Without `q`: the stored projection, or an escaping exception when the search raises. With `q`: the highlighted projection, or the failure message when the search raises or any hit lacks a highlight. |
| `Search.SearchReturnsIndexedContent` | Maquina_virtual_2/backEnd/main.py:260-274 | After a successful refresh, a query-less search over hits that report the index returns a newly indexed row with its link as title and link and its file text verbatim. |
| `Ingest.CheckKeys` | Maquina_virtual_2/backEnd/main.py:334-340 | The body passes exactly when its only key is `link_path_scrapper`. An empty body fails. |
| `Ingest.FindPath` | Maquina_virtual_2/backEnd/main.py:346-355 | The lookup finds the first row with the given path, or reports that no row has it. |
| `Ingest.DuplicatePathLeavesRowUnread` | Maquina_virtual_2/backEnd/main.py:347-356 | A path held by two catalog rows is found at or before the first of them, and a later row still holds it, so the read leaves a row unread. |
| `Ingest.AddLinkPath` | Maquina_virtual_2/backEnd/main.py:324-378 | Rejects a bad body, an unknown path, a path held by more than one row (closing the cursor with a row unread raises), a file name without a dot, an unreadable file and a refused write, each with its message and with the index unchanged. Otherwise it upserts the file under its file-name id. |
| `Ingest.AsWrittenLinkIsARow` | Maquina_virtual_2/backEnd/main.py:349-372 | As written, a document added by path is stored with the fetched row as url, so search returns a list as its link, unlike a refreshed document. |
| `Ingest.AddedDocLinkMatchesRefresh` | Maquina_virtual_2/backEnd/main.py:349-372 | With the row's link stored instead, search returns the link, as it does for a refreshed document. |
| `Ingest.AddAndRefreshIdsDiffer` | Maquina_virtual_2/backEnd/main.py:359-369 | A file-name id never equals a refresh id (a link with `/`), so one document indexed both ways is stored twice. |

## Findings

| source | as written | input that shows it | evidently intended | confidence | as-written member | corrected member |
|---|---|---|---|---|---|---|
| Maquina_virtual_2/backEnd/main.py:349-372 | `url = cursor_1.fetchone()` is the whole one-column row, and it is stored as the document's `url` | any catalog row `("https://www.example.com/a",)`: the stored url is the list `["https://www.example.com/a"]` and search returns that list as `link` | store the row's link string, as the refresh does at line 193 | medium, not executed | `Ingest.AsWrittenLinkIsARow` | `Ingest.AddedDocLinkMatchesRefresh` |

`Ingest.AddLinkPath` uses the corrected document (`Ingest.AddedDoc`);
`Ingest.AsWrittenLinkIsARow` also states that the document the code
writes is that one with the row in place of the link.

## Left out

- Elasticsearch internals: text analysis, scoring and ranking, what the unified highlighter produces, the `max_analyzed_offset` setting (lines 130-136) and the default page size of `es.search`. Hits are an input sequence.
- Lifecycle.CreateIndex: any failure of `indices.create` is read by the code as "already exists"; the model raises it only for an existing index, and connection failures are not modelled.
- SearchEngine.SearchIndex.Get: any exception of `es.get` sends the code to the indexing branch; the model raises only for a missing index or id.
- SearchEngine.SearchIndex.Put: the engine creates a missing index on the first write (its default behaviour); the reasons a write is refused are abstracted to the `rejects` input.
- SearchEngine.SearchIndex.Put: an empty id is stored under `""`. The client sends `es.index` with an empty id as a POST, and the engine stores the document under an id it generates. The refresh reaches that write for a catalog link `""`, because `es.get` with an empty id raises and the bare `except` at line 187 treats that as missing. `add_link_path` reaches it for a file name whose second dot-separated piece is empty, such as `a..txt`. In the code, such a row is indexed again on every refresh and lands in `successfully_indexed` each time.
- Reconcile.RefreshIsIdempotent, Reconcile.RefreshWritesNewDocs, Reconcile.RefreshLandsEachRecordOnce, Reconcile.RepeatedLinkIsAlreadyExisting: these hold of the model. They do not hold of the code for a catalog link `""`, for the reason given on the line above.
- Reconcile.Refresh: the two response lists hold the ids themselves; the code appends `{'file_name': id}` dictionaries (lines 184 and 196).
- Ingest.AddLinkPath: stores the corrected document (`url` is the row's link, `Ingest.AddedDoc`), not the fetched row that line 372 stores (`Ingest.AddedDocAsWritten`); the two differ only in `url`, as `Ingest.AsWrittenLinkIsARow` states (see Findings).
- SearchEngine.SearchIndex.Delete: deletion fails only on a missing index; connection failures are not modelled.
- MySQL access: connection setup, cursors and the SQL text, including the string-interpolated lookup at line 348 (a path containing a quote breaks that query and yields "Something went wrong."). A failing `db_call` escapes `refresh_indexes` and is not modelled.
- Ingest.AddLinkPath: a path held by more than one catalog row fails with "Something went wrong.". The row `fetchone` leaves unread makes `cursor_1.close()` raise on the unbuffered cursor (lines 349 and 356). This relies on the MySQL connector's documented "Unread result found" error, whose code is not part of this model. Which row `fetchone` would return does not matter, because no row is used then.
- File decoding: ISO-8859-1 reading is abstracted to the path-to-text map; a decoding error counts as an unreadable file.
- The `timestamp` field of refreshed documents is a clock read and is omitted from `Doc`.
- Identity.Netloc: models `urlsplit` as in Python 3.11 and later; its stripping of whitespace and control characters and its `ValueError` on malformed IPv6 brackets (which would make the refresh raise) are not modelled.
- Search.SearchRoot: the text of `q` only selects the highlighted branch; which documents match is decided by the engine and is part of the hit input.
- Framework and configuration: routing (`create_root`, `refresh_root` only forward), the 3 to 50 character validation of `q`, CORS, `.env` loading, `PORT` parsing, `uvicorn.run`, console prints, and the fresh client created inside `delete`.
- `get_link` (lines 381-398): a bare catalog insert with a fixed time.
- Module-level lists (`datos`, `list_names`, `list_path`) and the shared cursor are modelled as locals of one sequential call; there is no concurrency.
- Values of the request body other than strings.
