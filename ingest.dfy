/** `add_link_path`: a scraper names one file by path; the service checks
    the request body, finds the file's catalog row, derives an id from the
    file name and stores the file under it. */
module Ingest {
  import opened Wrappers
  import opened SearchEngine
  import Identity
  import Reconcile
  import Search
  import Lifecycle

  const Key := "link_path_scrapper"
  const BadRequestMessage := "Something went wrong."
  const NotInCatalogMessage := "El elemento no existe en la base de datos"
  const IndexedMessage := "Se ha indexado el archivo"

  /** The body checks: a non-empty body whose every key is the expected one. */
  method CheckKeys(body: map<string, string>) returns (ok: bool)
    ensures ok <==> body.Keys == {Key}
  {
    if body == map[] {
      return false;
    }
    var keys := body.Keys;
    while keys != {}
      invariant keys <= body.Keys
      invariant forall k :: k in body.Keys && k !in keys ==> k == Key
      decreases keys
    {
      var k :| k in keys;
      if k != Key {
        return false;
      }
      keys := keys - {k};
    }
    assert body.Keys <= {Key};
    ok := true;
  }

  /** `SELECT link FROM documentos WHERE path = ...` then `fetchone()`: the
      position of the first row with that path, or `|catalog|` when none. */
  function FindPath(catalog: seq<Reconcile.Record>, path: string): (i: nat)
    ensures i <= |catalog|
    ensures i < |catalog| ==> catalog[i].path == path
    ensures forall j :: 0 <= j < i ==> catalog[j].path != path
    decreases |catalog|
  {
    if catalog == [] then 0
    else if catalog[0].path == path then 0
    else 1 + FindPath(catalog[1..], path)
  }

  /** A row after row `i` also holds `path`: `fetchone` leaves it unread,
      so closing the unbuffered cursor raises. */
  predicate MoreRows(catalog: seq<Reconcile.Record>, path: string, i: nat)
    requires i < |catalog|
  {
    exists j :: i < j < |catalog| && catalog[j].path == path
  }

  /** A path held by two catalog rows is found, and a later row holds it
      too, so `add_link_path` fails for it. */
  lemma DuplicatePathLeavesRowUnread(catalog: seq<Reconcile.Record>, path: string, i: nat, j: nat)
    requires i < j < |catalog| && catalog[i].path == path && catalog[j].path == path
    ensures FindPath(catalog, path) <= i
    ensures MoreRows(catalog, path, FindPath(catalog, path))
  {
    assert catalog[j].path == path;
  }

  /** The document as the code writes it: `url` is the fetched row itself,
      a one-column tuple, not the link it holds. */
  function AddedDocAsWritten(id: string, content: string, row: seq<string>): Doc {
    Doc(id, content, Row(row))
  }

  /** The document with `url` the row's link, as the refresh stores it. */
  function AddedDoc(id: string, content: string, link: string): Doc {
    Doc(id, content, Link(link))
  }

  /** As written, a document added by path comes back from search with a
      list, not a link, in `link`, unlike the same row indexed by refresh. */
  lemma AsWrittenLinkIsARow(r: Reconcile.Record, id: string, content: string)
    ensures Search.StoredEntries([Hit(id, AddedDocAsWritten(id, content, [r.link]), None)])[0].link
            == Row([r.link])
    ensures AddedDocAsWritten(id, content, [r.link]).url != Reconcile.NewDoc(r, content).url
    ensures AddedDocAsWritten(id, content, [r.link]) == AddedDoc(id, content, r.link).(url := Row([r.link]))
  {
  }

  /** Corrected, it comes back with the row's link, exactly as a refreshed
      document does. */
  lemma AddedDocLinkMatchesRefresh(r: Reconcile.Record, id: string, content: string)
    ensures Search.StoredEntries([Hit(id, AddedDoc(id, content, r.link), None)])[0].link == Link(r.link)
    ensures AddedDoc(id, content, r.link).url == Reconcile.NewDoc(r, content).url
  {
  }

  /** The two paths into the index disagree on ids: a file id has no `/`,
      while the refresh keys by the whole link, so one document added both
      ways is stored twice. */
  lemma AddAndRefreshIdsDiffer(r: Reconcile.Record)
    requires Identity.FileNameId(r.path).Some?
    requires '/' in r.link
    ensures Identity.FileNameId(r.path).value != Identity.ObtainDomainName(r.link)
  {
  }

  /** `add_link_path`. */
  method AddLinkPath(index: SearchIndex, body: map<string, string>, catalog: seq<Reconcile.Record>,
                     files: map<string, string>, rejects: set<string>) returns (reply: Lifecycle.Reply)
    requires index.Valid()
    modifies index
    ensures index.Valid()
    ensures body.Keys != {Key} ==> reply == Lifecycle.Reply(false, BadRequestMessage) && unchanged(index)
    ensures body.Keys == {Key} && FindPath(catalog, body[Key]) == |catalog| ==>
              reply == Lifecycle.Reply(false, NotInCatalogMessage) && unchanged(index)
    ensures body.Keys == {Key} && FindPath(catalog, body[Key]) < |catalog| &&
            MoreRows(catalog, body[Key], FindPath(catalog, body[Key])) ==>
              reply == Lifecycle.Reply(false, BadRequestMessage) && unchanged(index)
    ensures body.Keys == {Key} && FindPath(catalog, body[Key]) < |catalog| &&
            !MoreRows(catalog, body[Key], FindPath(catalog, body[Key])) &&
            Identity.FileNameId(body[Key]).None? ==>
              reply == Lifecycle.Reply(false, BadRequestMessage) && unchanged(index)
    ensures body.Keys == {Key} && FindPath(catalog, body[Key]) < |catalog| &&
            !MoreRows(catalog, body[Key], FindPath(catalog, body[Key])) &&
            Identity.FileNameId(body[Key]).Some? ==>
              var path, id := body[Key], Identity.FileNameId(body[Key]).value;
              if path !in files || id in rejects then
                reply == Lifecycle.Reply(false, FailureMessage) && unchanged(index)
              else
                reply == Lifecycle.Reply(true, IndexedMessage) && index.created &&
                index.docs == old(index.docs)[id := AddedDoc(id, files[path], catalog[FindPath(catalog, path)].link)]
  {
    var ok := CheckKeys(body);
    if !ok {
      return Lifecycle.Reply(false, BadRequestMessage);
    }
    var path := body[Key];
    var row := FindPath(catalog, path);
    if row == |catalog| {
      return Lifecycle.Reply(false, NotInCatalogMessage);
    }
    if MoreRows(catalog, path, row) {
      return Lifecycle.Reply(false, BadRequestMessage);
    }
    var link := catalog[row].link;
    var fileName := Identity.FileNameId(path);
    if fileName.None? {
      return Lifecycle.Reply(false, BadRequestMessage);
    }
    var id := fileName.value;
    if path !in files {
      return Lifecycle.Reply(false, FailureMessage);
    }
    var written := index.Put(id, AddedDoc(id, files[path], link), id in rejects);
    if !written {
      return Lifecycle.Reply(false, FailureMessage);
    }
    reply := Lifecycle.Reply(true, IndexedMessage);
  }
}
