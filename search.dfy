/** `search_root`: turn the engine's hits into `{maintitle, link, content}`
    entries, with the stored content when there is no query and the
    highlight fragments when there is one. */
module Search {
  import opened Wrappers
  import opened SearchEngine
  import Reconcile

  const QueryFailureMessage := "Something went wrong. Try adding a query ex: <search?q=audifonos>"

  /** The `content` of an entry: the stored text, or the list of highlight
      fragments. */
  datatype Content = Stored(text: string) | Fragments(pieces: seq<string>)

  datatype Entry = Entry(maintitle: string, link: UrlField, content: Content)

  /** `{success: True, data}`, `{success: False, message}`, or an exception
      that escapes the handler (the query-less search is not guarded). */
  datatype SearchResponse = Found(data: seq<Entry>) | SearchFailed(message: string) | Raised

  /** One entry per hit, in hit order, with the stored content. */
  function StoredEntries(hits: seq<Hit>): (data: seq<Entry>)
    ensures |data| == |hits|
    ensures forall i :: 0 <= i < |hits| ==>
              data[i] == Entry(hits[i].source.title, hits[i].source.url, Stored(hits[i].source.content))
    decreases |hits|
  {
    if hits == [] then []
    else [Entry(hits[0].source.title, hits[0].source.url, Stored(hits[0].source.content))] + StoredEntries(hits[1..])
  }

  /** One entry per hit, in hit order, with the highlight fragments; `None`
      as soon as one hit has none. */
  function HighlightedEntries(hits: seq<Hit>): (data: Option<seq<Entry>>)
    ensures data.Some? <==> forall i :: 0 <= i < |hits| ==> hits[i].highlight.Some?
    ensures data.Some? ==> |data.value| == |hits|
    ensures data.Some? ==> forall i :: 0 <= i < |hits| ==>
              data.value[i] == Entry(hits[i].source.title, hits[i].source.url, Fragments(hits[i].highlight.value))
    decreases |hits|
  {
    if hits == [] then Some([])
    else if hits[0].highlight.None? then None
    else
      match HighlightedEntries(hits[1..])
      case None => None
      case Some(rest) =>
        Some([Entry(hits[0].source.title, hits[0].source.url, Fragments(hits[0].highlight.value))] + rest)
  }

  /** `search_root(q)`, given what `es.search` returned (`None` when it raised). */
  method SearchRoot(q: Option<string>, engine: Option<seq<Hit>>) returns (response: SearchResponse)
    ensures q.None? && engine.None? ==> response == Raised
    ensures q.None? && engine.Some? ==> response == Found(StoredEntries(engine.value))
    ensures q.Some? && engine.Some? && HighlightedEntries(engine.value).Some? ==>
              response == Found(HighlightedEntries(engine.value).value)
    ensures q.Some? && (engine.None? || HighlightedEntries(engine.value).None?) ==>
              response == SearchFailed(QueryFailureMessage)
  {
    if engine.None? {
      return if q.None? then Raised else SearchFailed(QueryFailureMessage);
    }
    var hits := engine.value;
    var data: seq<Entry> := [];
    var i := 0;
    if q.None? {
      while i < |hits|
        invariant 0 <= i <= |hits|
        invariant |data| == i
        invariant forall k :: 0 <= k < i ==>
                    data[k] == Entry(hits[k].source.title, hits[k].source.url, Stored(hits[k].source.content))
      {
        data := data + [Entry(hits[i].source.title, hits[i].source.url, Stored(hits[i].source.content))];
        i := i + 1;
      }
      return Found(data);
    }
    while i < |hits|
      invariant 0 <= i <= |hits|
      invariant |data| == i
      invariant forall k :: 0 <= k < i ==> hits[k].highlight.Some?
      invariant forall k :: 0 <= k < i ==>
                  data[k] == Entry(hits[k].source.title, hits[k].source.url, Fragments(hits[k].highlight.value))
    {
      if hits[i].highlight.None? {
        return SearchFailed(QueryFailureMessage);
      }
      data := data + [Entry(hits[i].source.title, hits[i].source.url, Fragments(hits[i].highlight.value))];
      i := i + 1;
    }
    response := Found(data);
  }

  /** Round trip: after a successful refresh, a query-less search whose hits
      report the index returns, for a newly indexed row, its link as title
      and link and its file text verbatim as content. */
  lemma SearchReturnsIndexedContent(catalog: seq<Reconcile.Record>, files: map<string, string>, rejects: set<string>,
                                    created: bool, docs: map<string, Doc>, hits: seq<Hit>, i: nat, j: nat)
    requires Consistent(created, docs)
    requires Reconcile.Reconciliation(catalog, files, rejects, created, docs).ok
    requires i < |catalog| && catalog[i].link !in docs && Reconcile.FirstOccurrence(catalog, i)
    requires HitsOf(hits, Reconcile.Reconciliation(catalog, files, rejects, created, docs).docs)
    requires j < |hits| && hits[j].id == catalog[i].link
    ensures catalog[i].path in files
    ensures StoredEntries(hits)[j] == Entry(catalog[i].link, Link(catalog[i].link), Stored(files[catalog[i].path]))
  {
    Reconcile.RefreshWritesNewDocs(catalog, files, rejects, created, docs);
  }
}
