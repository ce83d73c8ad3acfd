/**
 * The build environment as the extension sees it: the lazily created alert
 * collection and the current document name, and the four event handlers that
 * read and change them.
 */
module Environment {
  import opened Wrappers
  import opened Doctree
  import opened Records
  import opened Substitution

  class BuildEnv {
    /** `env.secualert_all_alerts`; None while the environment has no such attribute. */
    var alerts: Option<seq<Record>>
    /** `env.docname`: the document being read. */
    var docname: string

    constructor (docname: string)
      ensures alerts == None && this.docname == docname
    {
      alerts := None;
      this.docname := docname;
    }

    /**
     * `process_alerts`: create the collection if absent, then append one record
     * per alert node of the document, in document order.
     */
    method ProcessAlerts(doctree: Document, doc2path: string -> string)
      modifies this`alerts
      ensures alerts == Some(OrEmpty(old(alerts)) + Collected(docname, doctree, doc2path))
    {
      ghost var start := OrEmpty(alerts);
      if alerts.None? {
        alerts := Some([]);
      }
      // Appending to the collection in place; nothing else reads it meanwhile.
      var collection, name := alerts.value, docname;
      var sites := Traverse(Alert, doctree);
      assert RecordsOf(sites[..0], name, doc2path) == [];
      assert collection == start + [];
      for i := 0 to |sites|
        invariant collection == start + RecordsOf(sites[..i], name, doc2path)
      {
        // The `secualert-defined` event is emitted here; its handlers are not part of this model.
        ghost var done := RecordsOf(sites[..i], name, doc2path);
        var record := MakeRecord(sites[i], name, doc2path);
        collection := collection + [record];
        RecordsOfSnoc(sites, i, name, doc2path);
        assert collection == start + (done + [record]);
      }
      assert sites[..|sites|] == sites;
      alerts := Some(collection);
    }

    /** `purge_secualerts`: drop the records of one document, if there is a collection. */
    method Purge(document: string)
      modifies this`alerts
      ensures old(alerts).None? ==> alerts == None
      ensures old(alerts).Some? ==> alerts == Some(Purged(old(alerts).value, document))
    {
      if alerts.None? {
        return;
      }
      alerts := Some(Purged(alerts.value, document));
    }

    /**
     * `merge_info`: append a worker's collection, if it has one, to this one,
     * created first if absent. The worker's document names are not consulted.
     */
    method MergeInfo(docnames: set<string>, other: BuildEnv)
      modifies this`alerts
      ensures old(other.alerts).None? ==> alerts == old(alerts)
      ensures old(other.alerts).Some? ==> alerts == Some(OrEmpty(old(alerts)) + old(other.alerts).value)
    {
      if other.alerts.None? {
        return;
      }
      if alerts.None? {
        alerts := Some([]);
      }
      alerts := Some(alerts.value + other.alerts.value);
    }

    /**
     * The loop over the collection for one placeholder: build each record's
     * back-link, then strip `targetref` from its stored alert and resolve it.
     * A record whose back-link raises stops the pass, with the records before
     * it already changed.
     */
    method RenderPass(fromdocname: string, host: Host) returns (outcome: Result<seq<BackLinkParts>, RenderError>)
      requires alerts.Some?
      modifies this`alerts
      ensures var rs := old(alerts).value;
        var links := Links(rs, fromdocname, host);
        && alerts == Some(PassedUpTo(rs, |links|, host))
        && if |links| < |rs| then outcome == Failure(BackLink(rs[|links|], fromdocname, host).error)
           else outcome == Success(links)
    {
      var current := alerts.value;
      ghost var rs := current;
      ghost var expected := Links(rs, fromdocname, host);
      PassedEnds(rs, host);
      var links: seq<BackLinkParts> := [];
      for i := 0 to |current|
        invariant i <= |expected| && links == expected[..i]
        invariant current == PassedUpTo(rs, i, host)
      {
        assert current[i] == rs[i];
        var link := BackLink(current[i], fromdocname, host);
        LinksStep(rs, i, links, fromdocname, host);
        if link.Failure? {
          alerts := Some(current);
          return Failure(link.error);
        }
        links := links + [link.value];
        PassOneMore(rs, i, host);
        current := current[i := Refreshed(current[i], host)];
      }
      alerts := Some(current);
      assert expected[..|rs|] == expected;
      return Success(links);
    }

    /**
     * `process_secualertlist_nodes`: one pass over the collection per
     * placeholder of the document, then every placeholder replaced by its list.
     * The stored alert nodes are shared with the output, so each placement shows
     * the node as the last pass left it.
     */
    method ProcessListNodes(doctree: Document, fromdocname: string, host: Host)
      returns (result: Result<Document, RenderError>)
      modifies this`alerts
      ensures var n, before := |Traverse(Placeholder, doctree)|, old(alerts);
        if n == 0 then result == Success(doctree) && alerts == before
        else if before.None? then result == Failure(NoCollection) && alerts == None
        else
          var rs := before.value;
          var links := Links(rs, fromdocname, host);
          if |links| < |rs| then
            && result == Failure(BackLink(rs[|links|], fromdocname, host).error)
            && alerts == Some(PassedUpTo(rs, |links|, host))
          else
            && result == Success(Document(Substituted(doctree.children, Passes(rs, n, host), links)))
            && alerts == Some(Passes(rs, n, host))
    {
      var placeholders := Traverse(Placeholder, doctree);
      ghost var before := alerts;
      var links: seq<BackLinkParts> := [];
      for p := 0 to |placeholders|
        invariant p == 0 ==> alerts == before
        invariant p > 0 ==> before.Some? && |Links(before.value, fromdocname, host)| == |before.value|
        invariant p > 0 ==> alerts == Some(Passes(before.value, p, host))
        invariant p > 0 ==> links == Links(before.value, fromdocname, host)
      {
        if alerts.None? {
          return Failure(NoCollection);
        }
        PassesKeepLinks(before.value, p, fromdocname, host);
        PassedEnds(alerts.value, host);
        var outcome := RenderPass(fromdocname, host);
        if outcome.Failure? {
          return Failure(outcome.error);
        }
        links := outcome.value;
      }
      if |placeholders| == 0 {
        return Success(doctree);
      }
      result := Success(Document(Substituted(doctree.children, alerts.value, links)));
    }
  }
}
