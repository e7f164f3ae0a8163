/** `refresh_indexes` with `initialize_global_data` and `db_call`: walk a
    snapshot of the catalog in order, skip every document whose id the
    index already holds, read and index the others, and give up on the
    first failed read or write. */
module Reconcile {
  import opened SearchEngine
  import Identity

  /** One catalog row `(link, path)` as `SELECT link, path FROM documentos`
      returns it. */
  datatype Record = Record(link: string, path: string)

  /** The two lists hold the ids themselves; the code wraps each one as
      `{'file_name': id}`. */
  datatype RefreshResponse =
    | Refreshed(alreadyExists: seq<string>, successfullyIndexed: seq<string>)
    | RefreshFailed(message: string)

  /** Where a refresh stands: the two response lists, the index, and whether
      it is still running (`ok`) or has aborted. */
  datatype Pass = Pass(alreadyExists: seq<string>, successfullyIndexed: seq<string>,
                       created: bool, docs: map<string, Doc>, ok: bool)

  /** The links of the catalog, in order. */
  function Links(records: seq<Record>): (links: seq<string>)
    ensures |links| == |records|
    ensures forall i :: 0 <= i < |records| ==> links[i] == records[i].link
    decreases |records|
  {
    if records == [] then [] else [records[0].link] + Links(records[1..])
  }

  /** The document the refresh writes for a catalog row. */
  function NewDoc(r: Record, content: string): (d: Doc)
    ensures d.title == r.link && d.content == content && d.url == Link(r.link)
  {
    var id := Identity.ObtainDomainName(r.link);
    Doc(id, content, Link(r.link))
  }

  /** One iteration of the refresh loop. `files` maps the readable paths to
      their text; `rejects` holds the ids whose write the engine refuses. */
  function Step(r: Record, files: map<string, string>, rejects: set<string>, p: Pass): (q: Pass)
    ensures Consistent(p.created, p.docs) ==> Consistent(q.created, q.docs)
    ensures p.created ==> q.created
    ensures q.ok <==> p.ok && ((p.created && r.link in p.docs) || (r.path in files && r.link !in rejects))
  {
    var id := Identity.ObtainDomainName(r.link);
    if p.created && id in p.docs then
      p.(alreadyExists := p.alreadyExists + [id])
    else if r.path !in files || id in rejects then
      p.(ok := false)
    else
      p.(created := true, docs := p.docs[id := NewDoc(r, files[r.path])],
         successfullyIndexed := p.successfullyIndexed + [id])
  }

  /** The refresh loop from state `p` over the remaining rows. */
  function RunFrom(records: seq<Record>, files: map<string, string>, rejects: set<string>, p: Pass): (out: Pass)
    ensures out.ok ==> p.ok
    ensures !p.ok ==> out == p
    ensures p.created ==> out.created
    decreases |records|
  {
    if records == [] || !p.ok then p
    else RunFrom(records[1..], files, rejects, Step(records[0], files, rejects, p))
  }

  /** A whole refresh over the catalog, from the index as it is. */
  function Reconciliation(catalog: seq<Record>, files: map<string, string>, rejects: set<string>,
                          created: bool, docs: map<string, Doc>): (run: Pass)
    ensures created ==> run.created
  {
    RunFrom(catalog, files, rejects, Pass([], [], created, docs, true))
  }

  /** `initialize_global_data`: the id (`obtain_domain_name` of the link)
      and the path of every row, in catalog order. */
  method InitializeGlobalData(catalog: seq<Record>) returns (names: seq<string>, paths: seq<string>)
    ensures |names| == |catalog| && |paths| == |catalog|
    ensures forall i :: 0 <= i < |catalog| ==> names[i] == catalog[i].link && paths[i] == catalog[i].path
  {
    names, paths := [], [];
    var i := 0;
    while i < |catalog|
      invariant 0 <= i <= |catalog|
      invariant |names| == i && |paths| == i
      invariant forall k :: 0 <= k < i ==> names[k] == catalog[k].link && paths[k] == catalog[k].path
    {
      names := names + [Identity.ObtainDomainName(catalog[i].link)];
      paths := paths + [catalog[i].path];
      i := i + 1;
    }
  }

  /** `refresh_indexes`: the response and the index afterwards are those of
      `Reconciliation`. */
  method Refresh(index: SearchIndex, catalog: seq<Record>, files: map<string, string>, rejects: set<string>)
    returns (response: RefreshResponse)
    requires index.Valid()
    modifies index
    ensures index.Valid()
    ensures var run := Reconciliation(catalog, files, rejects, old(index.created), old(index.docs));
            index.created == run.created && index.docs == run.docs &&
            response == if run.ok then Refreshed(run.alreadyExists, run.successfullyIndexed)
                        else RefreshFailed(FailureMessage)
  {
    var names, paths := InitializeGlobalData(catalog);
    var alreadyExists: seq<string> := [];
    var successfullyIndexed: seq<string> := [];
    ghost var goal := Reconciliation(catalog, files, rejects, index.created, index.docs);
    var i := 0;
    while i < |paths|
      invariant 0 <= i <= |paths|
      invariant index.Valid()
      invariant RunFrom(catalog[i..], files, rejects,
                        Pass(alreadyExists, successfullyIndexed, index.created, index.docs, true)) == goal
    {
      ghost var before := Pass(alreadyExists, successfullyIndexed, index.created, index.docs, true);
      assert catalog[i..][1..] == catalog[i + 1..];
      var fileName := names[i];
      var url := catalog[i].link;
      var found := index.Get(fileName);
      if found {
        alreadyExists := alreadyExists + [fileName];
      } else {
        if paths[i] !in files {
          return RefreshFailed(FailureMessage);
        }
        var content := files[paths[i]];
        var ok := index.Put(fileName, Doc(fileName, content, Link(url)), fileName in rejects);
        if !ok {
          return RefreshFailed(FailureMessage);
        }
        successfullyIndexed := successfullyIndexed + [fileName];
      }
      i := i + 1;
    }
    response := Refreshed(alreadyExists, successfullyIndexed);
  }

  // ----- Reference definitions: where each row lands -----

  /** The links that are new: not known beforehand and not seen earlier in
      the list, in list order. */
  function Firsts(links: seq<string>, known: set<string>): seq<string>
    decreases |links|
  {
    if links == [] then []
    else if links[0] in known then Firsts(links[1..], known)
    else [links[0]] + Firsts(links[1..], known + {links[0]})
  }

  /** The other links: known beforehand or seen earlier, in list order. */
  function Repeats(links: seq<string>, known: set<string>): seq<string>
    decreases |links|
  {
    if links == [] then []
    else if links[0] in known then [links[0]] + Repeats(links[1..], known)
    else Repeats(links[1..], known + {links[0]})
  }

  /** No earlier row has the same link as row `i`. */
  predicate FirstOccurrence(records: seq<Record>, i: nat)
    requires i < |records|
  {
    forall j :: 0 <= j < i ==> records[j].link != records[i].link
  }

  /** The set of links of the catalog. */
  function LinkSet(records: seq<Record>): (links: set<string>)
    ensures forall i :: 0 <= i < |records| ==> records[i].link in links
    decreases |records|
  {
    if records == [] then {} else {records[0].link} + LinkSet(records[1..])
  }

  /** Every link goes to exactly one of the two lists. */
  lemma {:induction false} FirstsAndRepeatsPartition(links: seq<string>, known: set<string>)
    ensures multiset(Firsts(links, known)) + multiset(Repeats(links, known)) == multiset(links)
    ensures |Firsts(links, known)| + |Repeats(links, known)| == |links|
    decreases |links|
  {
    if links != [] {
      var known' := if links[0] in known then known else known + {links[0]};
      FirstsAndRepeatsPartition(links[1..], known');
      assert links == [links[0]] + links[1..];
      assert multiset(links) == multiset{links[0]} + multiset(links[1..]);
    }
  }

  /** A link known beforehand or repeated from an earlier row is a repeat. */
  lemma {:induction false} RepeatLandsInRepeats(links: seq<string>, known: set<string>, j: nat)
    requires j < |links|
    requires links[j] in known || links[j] in links[..j]
    ensures links[j] in Repeats(links, known)
    decreases |links|
  {
    if j > 0 {
      var known' := if links[0] in known then known else known + {links[0]};
      assert links[1..][j - 1] == links[j];
      assert links[..j] == [links[0]] + links[1..][..j - 1];
      RepeatLandsInRepeats(links[1..], known', j - 1);
    }
  }

  /** The new links are unknown beforehand and pairwise distinct. */
  lemma {:induction false} FirstsAreFresh(links: seq<string>, known: set<string>)
    ensures forall i :: 0 <= i < |Firsts(links, known)| ==> Firsts(links, known)[i] !in known
    ensures forall i, j :: 0 <= i < j < |Firsts(links, known)| ==> Firsts(links, known)[i] != Firsts(links, known)[j]
    decreases |links|
  {
    if links != [] {
      if links[0] in known {
        FirstsAreFresh(links[1..], known);
      } else {
        FirstsAreFresh(links[1..], known + {links[0]});
      }
    }
  }

  // ----- Facts about the refresh loop, from any intermediate state -----

  /** Documents present are never touched; the index stays consistent. */
  lemma {:induction false} RunKeeps(records: seq<Record>, files: map<string, string>, rejects: set<string>, p: Pass)
    requires Consistent(p.created, p.docs)
    ensures var out := RunFrom(records, files, rejects, p);
            Consistent(out.created, out.docs)
    ensures p.created ==> RunFrom(records, files, rejects, p).created
    ensures forall k :: k in p.docs ==>
              k in RunFrom(records, files, rejects, p).docs && RunFrom(records, files, rejects, p).docs[k] == p.docs[k]
    decreases |records|
  {
    if records != [] && p.ok {
      RunKeeps(records[1..], files, rejects, Step(records[0], files, rejects, p));
    }
  }

  /** On success the lists are the repeats and the new links, and the index
      gains exactly the catalog's links. */
  lemma {:induction false} RunPartition(records: seq<Record>, files: map<string, string>, rejects: set<string>, p: Pass)
    requires Consistent(p.created, p.docs) && p.ok
    requires RunFrom(records, files, rejects, p).ok
    ensures var out := RunFrom(records, files, rejects, p);
            out.alreadyExists == p.alreadyExists + Repeats(Links(records), p.docs.Keys) &&
            out.successfullyIndexed == p.successfullyIndexed + Firsts(Links(records), p.docs.Keys) &&
            out.docs.Keys == p.docs.Keys + LinkSet(records)
    decreases |records|
  {
    if records == [] {
      assert LinkSet(records) == {};
    } else {
      var r, rest := records[0], records[1..];
      var next := Step(r, files, rejects, p);
      var out := RunFrom(rest, files, rejects, next);
      assert RunFrom(records, files, rejects, p) == out;
      RunPartition(rest, files, rejects, next);
      if r.link in p.docs {
        assert p.created;
        assert next == p.(alreadyExists := p.alreadyExists + [r.link]);
        assert Repeats(Links(records), p.docs.Keys) == [r.link] + Repeats(Links(rest), p.docs.Keys);
        assert Firsts(Links(records), p.docs.Keys) == Firsts(Links(rest), p.docs.Keys);
        assert out.alreadyExists == p.alreadyExists + [r.link] + Repeats(Links(rest), p.docs.Keys);
      } else {
        assert next.ok;
        assert next.docs.Keys == p.docs.Keys + {r.link};
        assert next.successfullyIndexed == p.successfullyIndexed + [r.link];
        assert Repeats(Links(records), p.docs.Keys) == Repeats(Links(rest), p.docs.Keys + {r.link});
        assert Firsts(Links(records), p.docs.Keys) == [r.link] + Firsts(Links(rest), p.docs.Keys + {r.link});
        assert out.successfullyIndexed == p.successfullyIndexed + [r.link] + Firsts(Links(rest), p.docs.Keys + {r.link});
      }
    }
  }

  /** On success, a row whose link was new is stored with the file text. */
  lemma {:induction false} RunShape(records: seq<Record>, files: map<string, string>, rejects: set<string>, p: Pass)
    requires Consistent(p.created, p.docs) && p.ok
    requires RunFrom(records, files, rejects, p).ok
    ensures forall i :: 0 <= i < |records| && records[i].link !in p.docs && FirstOccurrence(records, i) ==>
              records[i].path in files &&
              records[i].link in RunFrom(records, files, rejects, p).docs &&
              RunFrom(records, files, rejects, p).docs[records[i].link] == NewDoc(records[i], files[records[i].path])
    decreases |records|
  {
    if records != [] {
      var next := Step(records[0], files, rejects, p);
      var out := RunFrom(records, files, rejects, p);
      RunShape(records[1..], files, rejects, next);
      RunKeeps(records[1..], files, rejects, next);
      forall i | 0 <= i < |records| && records[i].link !in p.docs && FirstOccurrence(records, i)
        ensures records[i].path in files && records[i].link in out.docs &&
                out.docs[records[i].link] == NewDoc(records[i], files[records[i].path])
      {
        if i > 0 {
          assert records[1..][i - 1] == records[i];
          assert records[i].link != records[0].link;
          forall j | 0 <= j < i - 1 ensures records[1..][j].link != records[1..][i - 1].link {
            assert records[1..][j] == records[j + 1];
          }
          assert FirstOccurrence(records[1..], i - 1);
        }
      }
    }
  }

  /** Row `r` is already indexed: the step only records it. */
  lemma StepKnown(r: Record, files: map<string, string>, rejects: set<string>, p: Pass)
    requires Consistent(p.created, p.docs) && r.link in p.docs
    ensures Step(r, files, rejects, p) == p.(alreadyExists := p.alreadyExists + [r.link])
  {
    assert p.created;
  }

  /** A refresh over rows that are all indexed changes nothing and lists
      every row as already existing. */
  lemma {:induction false} RunAllKnown(records: seq<Record>, files: map<string, string>, rejects: set<string>, p: Pass)
    requires Consistent(p.created, p.docs) && p.ok
    requires forall i :: 0 <= i < |records| ==> records[i].link in p.docs
    ensures RunFrom(records, files, rejects, p) == p.(alreadyExists := p.alreadyExists + Links(records))
    decreases |records|
  {
    if records == [] {
      assert p.alreadyExists + Links(records) == p.alreadyExists;
    } else {
      var rest := records[1..];
      var next := p.(alreadyExists := p.alreadyExists + [records[0].link]);
      StepKnown(records[0], files, rejects, p);
      forall i | 0 <= i < |rest| ensures rest[i].link in next.docs {
        assert rest[i] == records[i + 1];
      }
      RunAllKnown(rest, files, rejects, next);
      assert next.alreadyExists + Links(rest) == p.alreadyExists + Links(records);
    }
  }

  /** The refresh stopped at row `f`: everything before it went through,
      row `f` was not indexed and its file or its write failed, and the
      index is left as the rows before `f` made it. */
  predicate AbortedAt(records: seq<Record>, files: map<string, string>, rejects: set<string>, p: Pass, f: nat, out: Pass)
    requires f < |records|
  {
    var before := RunFrom(records[..f], files, rejects, p);
    before.ok && out.created == before.created && out.docs == before.docs &&
    !(before.created && records[f].link in before.docs) &&
    (records[f].path !in files || records[f].link in rejects)
  }

  lemma {:induction false} RunAborts(records: seq<Record>, files: map<string, string>, rejects: set<string>, p: Pass)
    requires p.ok
    requires !RunFrom(records, files, rejects, p).ok
    ensures exists f :: 0 <= f < |records| && AbortedAt(records, files, rejects, p, f, RunFrom(records, files, rejects, p))
    decreases |records|
  {
    var out := RunFrom(records, files, rejects, p);
    var next := Step(records[0], files, rejects, p);
    if !next.ok {
      assert records[..0] == [];
      assert AbortedAt(records, files, rejects, p, 0, out);
    } else {
      RunAborts(records[1..], files, rejects, next);
      var f :| 0 <= f < |records[1..]| && AbortedAt(records[1..], files, rejects, next, f, out);
      assert records[..f + 1][1..] == records[1..][..f];
      assert records[..f + 1][0] == records[0];
      assert records[1..][f] == records[f + 1];
      assert AbortedAt(records, files, rejects, p, f + 1, out);
    }
  }

  // ----- The properties of a whole refresh -----

  /** On success every catalog row contributes exactly one entry, in catalog
      order: to `already_exists` when its link was indexed before or appears
      on an earlier row, to `successfully_indexed` otherwise. */
  lemma RefreshLandsEachRecordOnce(catalog: seq<Record>, files: map<string, string>, rejects: set<string>,
                                   created: bool, docs: map<string, Doc>)
    requires Consistent(created, docs)
    requires Reconciliation(catalog, files, rejects, created, docs).ok
    ensures var run := Reconciliation(catalog, files, rejects, created, docs);
            run.alreadyExists == Repeats(Links(catalog), docs.Keys) &&
            run.successfullyIndexed == Firsts(Links(catalog), docs.Keys) &&
            multiset(run.alreadyExists) + multiset(run.successfullyIndexed) == multiset(Links(catalog))
  {
    RunPartition(catalog, files, rejects, Pass([], [], created, docs, true));
    FirstsAndRepeatsPartition(Links(catalog), docs.Keys);
  }

  /** A link repeated later in the catalog lands in `already_exists`. */
  lemma RepeatedLinkIsAlreadyExisting(catalog: seq<Record>, files: map<string, string>, rejects: set<string>,
                                      created: bool, docs: map<string, Doc>, i: nat, j: nat)
    requires Consistent(created, docs)
    requires Reconciliation(catalog, files, rejects, created, docs).ok
    requires i < j < |catalog| && catalog[i].link == catalog[j].link
    ensures catalog[j].link in Reconciliation(catalog, files, rejects, created, docs).alreadyExists
  {
    RefreshLandsEachRecordOnce(catalog, files, rejects, created, docs);
    assert Links(catalog)[..j][i] == catalog[j].link;
    RepeatLandsInRepeats(Links(catalog), docs.Keys, j);
  }

  /** Whatever happens, documents already in the index keep their content. */
  lemma RefreshKeepsExistingDocs(catalog: seq<Record>, files: map<string, string>, rejects: set<string>,
                                 created: bool, docs: map<string, Doc>)
    requires Consistent(created, docs)
    ensures var run := Reconciliation(catalog, files, rejects, created, docs);
            forall k :: k in docs ==> k in run.docs && run.docs[k] == docs[k]
  {
    RunKeeps(catalog, files, rejects, Pass([], [], created, docs, true));
  }

  /** On success the index holds exactly the old ids plus the catalog's
      links, and each newly indexed row is stored under its link with the
      link as title, the file text as content and the link as url. */
  lemma RefreshWritesNewDocs(catalog: seq<Record>, files: map<string, string>, rejects: set<string>,
                             created: bool, docs: map<string, Doc>)
    requires Consistent(created, docs)
    requires Reconciliation(catalog, files, rejects, created, docs).ok
    ensures var run := Reconciliation(catalog, files, rejects, created, docs);
            run.docs.Keys == docs.Keys + LinkSet(catalog) &&
            forall i :: 0 <= i < |catalog| && catalog[i].link !in docs && FirstOccurrence(catalog, i) ==>
              catalog[i].path in files && catalog[i].link in run.docs &&
              run.docs[catalog[i].link] == Doc(catalog[i].link, files[catalog[i].path], Link(catalog[i].link))
  {
    var p := Pass([], [], created, docs, true);
    var run := RunFrom(catalog, files, rejects, p);
    assert run.docs.Keys == docs.Keys + LinkSet(catalog) by {
      RunPartition(catalog, files, rejects, p);
    }
    RunShape(catalog, files, rejects, p);
  }

  /** A second refresh over the same catalog, whatever the files and the
      engine do this time, indexes nothing, lists every row as already
      existing and leaves the index as the first one left it. */
  lemma RefreshIsIdempotent(catalog: seq<Record>, files: map<string, string>, rejects: set<string>,
                            created: bool, docs: map<string, Doc>,
                            files2: map<string, string>, rejects2: set<string>)
    requires Consistent(created, docs)
    requires Reconciliation(catalog, files, rejects, created, docs).ok
    ensures var first := Reconciliation(catalog, files, rejects, created, docs);
            var second := Reconciliation(catalog, files2, rejects2, first.created, first.docs);
            second.ok && second.successfullyIndexed == [] && second.alreadyExists == Links(catalog) &&
            second.created == first.created && second.docs == first.docs
  {
    var p := Pass([], [], created, docs, true);
    var first := RunFrom(catalog, files, rejects, p);
    RunPartition(catalog, files, rejects, p);
    RunKeeps(catalog, files, rejects, p);
    RunAllKnown(catalog, files2, rejects2, Pass([], [], first.created, first.docs, true));
  }

  /** A failed refresh stopped at one row: the rows before it were handled
      (their writes stay in the index), the failing row's file was missing
      or its write refused, and no later row was looked at. */
  lemma RefreshAbortKeepsEarlierWrites(catalog: seq<Record>, files: map<string, string>, rejects: set<string>,
                                       created: bool, docs: map<string, Doc>)
    requires !Reconciliation(catalog, files, rejects, created, docs).ok
    ensures exists f :: 0 <= f < |catalog| &&
              AbortedAt(catalog, files, rejects, Pass([], [], created, docs, true), f,
                        Reconciliation(catalog, files, rejects, created, docs))
  {
    RunAborts(catalog, files, rejects, Pass([], [], created, docs, true));
  }
}
