/** The Elasticsearch index the service writes to, reduced to what the
    service observes: whether the index exists and the documents it holds,
    keyed by id. Each method is one client call the service makes. */
module SearchEngine {
  import opened Wrappers

  /** The fixed index name. */
  const DbName := "db_scrapper"

  /** The message every handler answers with when a client call raises. */
  const FailureMessage := "Something went wrong"

  /** The `url` field as it reaches the index: a string, or a database row
      (a tuple, which the client serialises as a JSON list). */
  datatype UrlField = Link(value: string) | Row(columns: seq<string>)

  /** An indexed document's `_source` (the refresh's timestamp is left out). */
  datatype Doc = Doc(title: string, content: string, url: UrlField)

  /** One element of `hits.hits`: `_id`, `_source` and, for a highlighted
      query, the `content` fragments of `highlight` (`None` when missing). */
  datatype Hit = Hit(id: string, source: Doc, highlight: Option<seq<string>>)

  /** Hits that report what the index holds: every hit is a stored document. */
  ghost predicate HitsOf(hits: seq<Hit>, docs: map<string, Doc>) {
    forall i :: 0 <= i < |hits| ==> hits[i].id in docs && hits[i].source == docs[hits[i].id]
  }

  /** A missing index holds no documents. */
  predicate Consistent(created: bool, docs: map<string, Doc>) {
    !created ==> docs == map[]
  }

  class SearchIndex {
    var created: bool
    var docs: map<string, Doc>

    ghost predicate Valid()
      reads this
    {
      Consistent(created, docs)
    }

    constructor (created: bool, docs: map<string, Doc>)
      requires Consistent(created, docs)
      ensures Valid() && this.created == created && this.docs == docs
    {
      this.created := created;
      this.docs := docs;
    }

    /** `es.indices.create`: succeeds only on a missing index, which then
        exists and is empty; on an existing index it raises and changes nothing. */
    method Create() returns (ok: bool)
      requires Valid()
      modifies this
      ensures Valid()
      ensures ok == !old(created)
      ensures created && docs == (if ok then map[] else old(docs))
    {
      ok := !created;
      if ok {
        created, docs := true, map[];
      }
    }

    /** `es.get`: raises unless the index exists and holds the id. */
    method Get(id: string) returns (found: bool)
      ensures found == (created && id in docs)
    {
      found := created && id in docs;
    }

    /** `es.index`: stores (or replaces) the document under `id`, creating
        the index if it is missing; `rejected` stands for the engine
        refusing the write, which raises and changes nothing. */
    method Put(id: string, doc: Doc, rejected: bool) returns (ok: bool)
      requires Valid()
      modifies this
      ensures Valid()
      ensures ok == !rejected
      ensures ok ==> created && docs == old(docs)[id := doc]
      ensures !ok ==> unchanged(this)
    {
      ok := !rejected;
      if ok {
        created, docs := true, docs[id := doc];
      }
    }

    /** `es.indices.delete`: removes an existing index with its documents;
        raises on a missing one. */
    method Delete() returns (ok: bool)
      requires Valid()
      modifies this
      ensures Valid()
      ensures ok == old(created)
      ensures !created && docs == map[]
    {
      ok := created;
      created, docs := false, map[];
    }
  }
}
