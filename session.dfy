/**
 * The panel's session state (the loaded document and the last match list)
 * and the operations that read or replace it: loading a document, running a
 * query, listing the key paths, and the guard in front of exporting.
 */
module Session {
  import opened Wrappers
  import opened JsonValue
  import Text
  import PathResolver
  import Matcher
  import Query
  import KeyPaths

  /** How queryJson ended: skipped by its guard, ran to the end, or threw while testing element `index`. */
  datatype QueryOutcome = Skipped | Completed | Failed(index: nat)

  /**
   * How loadJsonFile ended: the file could not be read as JSON, or it was
   * loaded; the query run right after loading may have thrown, which the
   * catch block reports as a load failure although the document is in place.
   */
  datatype LoadOutcome = NotLoaded | Loaded | LoadedButQueryFailed(index: nat)

  /** What exportResultsToFile does: refuse, let the user cancel, or write the matches as one array. */
  datatype ExportOutcome = NothingToExport | Cancelled | Written(document: Json)

  class QueryPanel {
    /** The loaded document; None until a file has been loaded. */
    var rootNode: Option<Json>
    /** The elements collected by the last query that ran. */
    var matchedNodes: seq<Json>

    constructor ()
      ensures rootNode == None && matchedNodes == []
    {
      rootNode := None;
      matchedNodes := [];
    }

    /** Queries run only over a loaded document whose root is an array. */
    predicate HasArrayRoot()
      reads this
    {
      rootNode.Some? && rootNode.value.Arr?
    }

    /**
     * queryJson with the key and value fields' text: without an array root it
     * returns before touching anything; otherwise it clears the match list and
     * appends each element that matches, in array order, until an element's
     * range test throws.
     */
    method QueryJson(keyText: string, valueText: string) returns (outcome: QueryOutcome)
      modifies this
      ensures rootNode == old(rootNode)
      ensures !old(HasArrayRoot()) ==> outcome == Skipped && matchedNodes == old(matchedNodes)
      ensures old(HasArrayRoot()) ==>
        var r := Query.ScanElements(rootNode.value.items, Text.Trim(keyText), Text.Trim(valueText));
        && matchedNodes == r.matches
        && outcome == if r.failedAt.Some? then Failed(r.failedAt.value) else Completed
    {
      if rootNode.None? || !rootNode.value.Arr? {
        return Skipped;
      }
      var keyPath := Text.Trim(keyText);
      var value := Text.Trim(valueText);
      matchedNodes := [];
      var items := rootNode.value.items;
      for i := 0 to |items|
        invariant rootNode == old(rootNode)
        invariant Query.ScanElements(items[..i], keyPath, value) == Query.Scan(matchedNodes, None)
      {
        var target := PathResolver.GetValueAtKeyPath(items[i], keyPath);
        var decision := Matcher.Decide(target, value);
        assert items[..i + 1][..i] == items[..i];
        assert decision == Query.DecisionFor(items[..i + 1][i], keyPath, value);
        Query.LastStep(items[..i + 1], keyPath, value);
        if decision == Matcher.IndexOutOfBounds {
          Query.StopAfterFailure(items, i + 1, keyPath, value);
          return Failed(i);
        }
        if decision == Matcher.Match {
          matchedNodes := matchedNodes + [items[i]];
        }
      }
      assert items[..|items|] == items;
      return Completed;
    }

    /**
     * loadJsonFile after the file chooser: `parsed` is the document read from
     * the chosen file, or None when it could not be read or parsed, in which
     * case nothing changes. Otherwise the document replaces the old one and
     * the query runs again.
     */
    method LoadJsonFile(parsed: Option<Json>, keyText: string, valueText: string) returns (outcome: LoadOutcome)
      modifies this
      ensures parsed.None? ==> outcome == NotLoaded && rootNode == old(rootNode) && matchedNodes == old(matchedNodes)
      ensures parsed.Some? ==> rootNode == parsed
      ensures parsed.Some? && !parsed.value.Arr? ==> outcome == Loaded && matchedNodes == old(matchedNodes)
      ensures parsed.Some? && parsed.value.Arr? ==>
        var r := Query.ScanElements(parsed.value.items, Text.Trim(keyText), Text.Trim(valueText));
        && matchedNodes == r.matches
        && outcome == if r.failedAt.Some? then LoadedButQueryFailed(r.failedAt.value) else Loaded
    {
      if parsed.None? {
        return NotLoaded;
      }
      rootNode := parsed;
      var q := QueryJson(keyText, valueText);
      if q.Failed? {
        return LoadedButQueryFailed(q.index);
      }
      return Loaded;
    }

    /**
     * inspectKeys: refused before any document is loaded; otherwise every key
     * path of the document, collected in a sorted set and listed in its order.
     */
    method InspectKeys() returns (keys: Option<seq<string>>)
      ensures keys.None? <==> rootNode.None?
      ensures keys.Some? ==> Text.StrictlySorted(keys.value)
      ensures keys.Some? ==> forall s :: s in keys.value <==> s in KeyPaths.Paths(rootNode.value, "")
    {
      if rootNode.None? {
        return None;
      }
      var allKeys := new KeyPaths.KeySet();
      KeyPaths.ExtractKeyPaths(rootNode.value, "", allKeys);
      keys := Some(allKeys.elems);
      forall s
        ensures s in allKeys.elems <==> s in allKeys.Contents()
      {
        if s in allKeys.elems {
          var i :| 0 <= i < |allKeys.elems| && allKeys.elems[i] == s;
        }
      }
    }

    /**
     * exportResultsToFile: with no matches it refuses and writes nothing;
     * otherwise, unless the user cancels the save dialog, the document
     * written is the array of the matched elements in match order.
     */
    method ExportResultsToFile(approved: bool) returns (outcome: ExportOutcome)
      ensures outcome == NothingToExport <==> matchedNodes == []
      ensures outcome == Cancelled <==> matchedNodes != [] && !approved
      ensures outcome.Written? ==> outcome.document == Arr(matchedNodes)
    {
      if matchedNodes == [] {
        return NothingToExport;
      }
      if !approved {
        return Cancelled;
      }
      return Written(Arr(matchedNodes));
    }
  }

  /**
   * Exporting and then loading the written document: the new document is an
   * array of exactly the exported matches, in the same order (serialisation
   * is taken to be faithful).
   */
  method ReloadExported(panel: QueryPanel, keyText: string, valueText: string) returns (outcome: ExportOutcome)
    modifies panel
    ensures outcome == NothingToExport <==> old(panel.matchedNodes) == []
    ensures outcome.Written? ==> panel.rootNode == Some(Arr(old(panel.matchedNodes)))
    ensures !outcome.Written? ==> panel.rootNode == old(panel.rootNode) && panel.matchedNodes == old(panel.matchedNodes)
  {
    outcome := panel.ExportResultsToFile(true);
    if outcome.Written? {
      var _ := panel.LoadJsonFile(Some(outcome.document), keyText, valueText);
    }
  }
}
