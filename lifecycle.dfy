/** `create_index` and `delete`: bringing the index into existence, listing
    what it holds when it already exists, and removing it. */
module Lifecycle {
  import opened Wrappers
  import opened SearchEngine

  const CreatedMessage := "Index DB created"
  const AlreadyExistsMessage := "Index DB: " + DbName + " already exists"
  const DeletedMessage := "DB: " + DbName + " Successfully deleted"

  /** One entry of `current_documents`. */
  datatype DocInfo = DocInfo(id: string, title: string)

  /** The response of `create_index`; only `Created` has `success: True`. */
  datatype CreateResponse =
    | Created(message: string)
    | AlreadyExists(message: string, currentDocuments: seq<DocInfo>)
    | CreateFailed(message: string)

  /** A `{success, message}` response. */
  datatype Reply = Reply(success: bool, message: string)

  /** The `(id, title)` of every hit, in hit order. */
  function Inventory(hits: seq<Hit>): (current: seq<DocInfo>)
    ensures |current| == |hits|
    ensures forall i :: 0 <= i < |hits| ==> current[i] == DocInfo(hits[i].id, hits[i].source.title)
    decreases |hits|
  {
    if hits == [] then [] else [DocInfo(hits[0].id, hits[0].source.title)] + Inventory(hits[1..])
  }

  /** The loop of `create_index` that fills `current_documents`. */
  method CurrentDocuments(hits: seq<Hit>) returns (current: seq<DocInfo>)
    ensures current == Inventory(hits)
  {
    current := [];
    var i := 0;
    while i < |hits|
      invariant 0 <= i <= |hits|
      invariant |current| == i
      invariant forall k :: 0 <= k < i ==> current[k] == DocInfo(hits[k].id, hits[k].source.title)
    {
      current := current + [DocInfo(hits[i].id, hits[i].source.title)];
      i := i + 1;
    }
  }

  /** `create_index`. Creation raising is taken to mean the index exists;
      the match-all search that follows is `engine` (`None` when it raises). */
  method CreateIndex(index: SearchIndex, engine: Option<seq<Hit>>) returns (response: CreateResponse)
    requires index.Valid()
    modifies index
    ensures index.Valid()
    ensures !old(index.created) ==> index.created && index.docs == map[] && response == Created(CreatedMessage)
    ensures old(index.created) ==> index.created && index.docs == old(index.docs)
    ensures old(index.created) && engine.None? ==> response == CreateFailed(FailureMessage)
    ensures old(index.created) && engine.Some? ==>
              response == AlreadyExists(AlreadyExistsMessage, Inventory(engine.value))
  {
    var ok := index.Create();
    if ok {
      return Created(CreatedMessage);
    }
    if engine.None? {
      return CreateFailed(FailureMessage);
    }
    var current := CurrentDocuments(engine.value);
    response := AlreadyExists(AlreadyExistsMessage, current);
  }

  /** `delete`: success exactly when there was an index to delete; afterwards
      there is none. */
  method DeleteIndex(index: SearchIndex) returns (response: Reply)
    requires index.Valid()
    modifies index
    ensures index.Valid()
    ensures !index.created && index.docs == map[]
    ensures response == if old(index.created) then Reply(true, DeletedMessage) else Reply(false, FailureMessage)
  {
    var ok := index.Delete();
    if !ok {
      return Reply(false, FailureMessage);
    }
    response := Reply(true, DeletedMessage);
  }

  /** When the hits report the index, `current_documents` lists stored ids
      with their stored titles. */
  lemma InventoryListsStoredDocs(hits: seq<Hit>, docs: map<string, Doc>)
    requires HitsOf(hits, docs)
    ensures forall i :: 0 <= i < |hits| ==>
              Inventory(hits)[i].id in docs && Inventory(hits)[i].title == docs[Inventory(hits)[i].id].title
  {
    var current := Inventory(hits);
    forall i | 0 <= i < |hits|
      ensures current[i].id in docs && current[i].title == docs[current[i].id].title
    {
      assert current[i] == DocInfo(hits[i].id, hits[i].source.title);
      assert hits[i].source == docs[hits[i].id];
    }
  }

  /** Creating twice: the first call creates an empty index, the second
      reports it as existing with the listing of the search that follows. */
  method CreateTwice(hits: seq<Hit>) returns (first: CreateResponse, second: CreateResponse)
    ensures first == Created(CreatedMessage)
    ensures second == AlreadyExists(AlreadyExistsMessage, Inventory(hits))
  {
    var index := new SearchIndex(false, map[]);
    first := CreateIndex(index, Some(hits));
    second := CreateIndex(index, Some(hits));
  }
}
