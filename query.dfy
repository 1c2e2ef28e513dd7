/**
 * What the loop of queryJson computes over the root array: the elements that
 * match, in array order, and the element at which the loop was cut short by
 * an uncaught out-of-bounds exception, if any.
 */
module Query {
  import opened Wrappers
  import opened JsonValue
  import PathResolver
  import Matcher
  import Text

  /** The decision for one element under the trimmed key path and value. */
  function DecisionFor(element: Json, keyPath: string, value: string): Matcher.Decision {
    Matcher.Decide(PathResolver.Resolve(element, keyPath), value)
  }

  /** The decision for each element, in array order. */
  function DecisionsOf(items: seq<Json>, keyPath: string, value: string): seq<Matcher.Decision> {
    seq(|items|, i requires 0 <= i < |items| => DecisionFor(items[i], keyPath, value))
  }

  /** The matches collected so far, and the index of the element whose test threw, if one did. */
  datatype Scan = Scan(matches: seq<Json>, failedAt: Option<nat>)

  /**
   * The loop's bookkeeping once `items` have been visited in order, element i
   * having been decided `ds[i]`: a match is appended, a non-match skipped, and
   * an exception ends the loop.
   */
  function Run(items: seq<Json>, ds: seq<Matcher.Decision>): Scan
    requires |ds| == |items|
    decreases |items|
  {
    if items == [] then Scan([], None)
    else
      var n := |items| - 1;
      var before := Run(items[..n], ds[..n]);
      if before.failedAt.Some? then before
      else match ds[n]
        case Match => Scan(before.matches + [items[n]], None)
        case NoMatch => before
        case IndexOutOfBounds => Scan(before.matches, Some(n))
  }

  /** The state after the loop has visited `items` in order. */
  function ScanElements(items: seq<Json>, keyPath: string, value: string): Scan {
    Run(items, DecisionsOf(items, keyPath, value))
  }

  /** How far the loop got: the failing index, or the whole array. */
  function Reached(items: seq<Json>, r: Scan): nat {
    if r.failedAt.Some? then r.failedAt.value else |items|
  }

  /** Whatever the decisions, the run stops exactly at the first exception. */
  lemma {:induction false} RunStopsAtFirstFailure(items: seq<Json>, ds: seq<Matcher.Decision>)
    requires |ds| == |items|
    ensures var r := Run(items, ds);
      && (r.failedAt.Some? ==> r.failedAt.value < |items| && ds[r.failedAt.value] == Matcher.IndexOutOfBounds)
      && (forall j :: 0 <= j < Reached(items, r) ==> ds[j] != Matcher.IndexOutOfBounds)
    decreases |items|
  {
    if items != [] {
      var n := |items| - 1;
      RunStopsAtFirstFailure(items[..n], ds[..n]);
      assert forall j :: 0 <= j < n ==> ds[..n][j] == ds[j];
    }
  }

  /** Whatever the decisions, the run collects exactly the elements decided Match before it stops. */
  lemma {:induction false} RunCollectsMatches(items: seq<Json>, ds: seq<Matcher.Decision>) returns (idx: seq<nat>)
    requires |ds| == |items|
    ensures var r := Run(items, ds);
      && Reached(items, r) <= |items|
      && |idx| == |r.matches|
      && (forall k :: 0 <= k < |idx| ==> idx[k] < Reached(items, r) && r.matches[k] == items[idx[k]])
      && (forall k, l :: 0 <= k < l < |idx| ==> idx[k] < idx[l])
      && (forall i :: 0 <= i < Reached(items, r) ==> (ds[i] == Matcher.Match <==> i in idx))
    decreases |items|
  {
    if items == [] {
      idx := [];
    } else {
      var n := |items| - 1;
      var pre, pds := items[..n], ds[..n];
      assert forall j :: 0 <= j < n ==> pre[j] == items[j] && pds[j] == ds[j];
      var before := Run(pre, pds);
      var r := Run(items, ds);
      var prev := RunCollectsMatches(pre, pds);
      if before.failedAt.Some? {
        idx := prev;
        assert r == before && Reached(items, r) == Reached(pre, before);
      } else if ds[n] == Matcher.Match {
        idx := prev + [n];
        assert r.matches == before.matches + [items[n]] && Reached(items, r) == n + 1;
        assert forall k :: 0 <= k < |prev| ==> idx[k] == prev[k] && prev[k] < n;
      } else if ds[n] == Matcher.NoMatch {
        idx := prev;
        assert r == before && Reached(items, r) == n + 1;
        assert forall k :: 0 <= k < |prev| ==> prev[k] < n;
      } else {
        idx := prev;
        assert r.matches == before.matches && Reached(items, r) == n;
      }
    }
  }

  /** Whatever the decisions, nothing after an exception changes the run. */
  lemma {:induction false} RunStopsAfterFailure(items: seq<Json>, ds: seq<Matcher.Decision>, k: nat)
    requires |ds| == |items| && k <= |items| && Run(items[..k], ds[..k]).failedAt.Some?
    ensures Run(items, ds) == Run(items[..k], ds[..k])
    decreases |items|
  {
    if k < |items| {
      var n := |items| - 1;
      assert items[..n][..k] == items[..k] && ds[..n][..k] == ds[..k];
      RunStopsAfterFailure(items[..n], ds[..n], k);
    } else {
      assert items[..k] == items && ds[..k] == ds;
    }
  }

  /** The decisions of a prefix are a prefix of the decisions. */
  lemma DecisionsPrefix(items: seq<Json>, k: nat, keyPath: string, value: string)
    requires k <= |items|
    ensures DecisionsOf(items, keyPath, value)[..k] == DecisionsOf(items[..k], keyPath, value)
  {
    assert forall i :: 0 <= i < k ==> items[..k][i] == items[i];
  }

  /**
   * The loop stops exactly at the first element whose test throws, and runs
   * to the end when no element throws.
   */
  lemma StopsAtFirstFailure(items: seq<Json>, keyPath: string, value: string)
    ensures var r := ScanElements(items, keyPath, value);
      && (r.failedAt.Some? ==>
            && r.failedAt.value < |items|
            && DecisionFor(items[r.failedAt.value], keyPath, value) == Matcher.IndexOutOfBounds)
      && (forall j :: 0 <= j < Reached(items, r) ==>
            DecisionFor(items[j], keyPath, value) != Matcher.IndexOutOfBounds)
  {
    var ds := DecisionsOf(items, keyPath, value);
    RunStopsAtFirstFailure(items, ds);
    assert forall j :: 0 <= j < |items| ==> ds[j] == DecisionFor(items[j], keyPath, value);
  }

  /** The last element's step, as the loop takes it. */
  lemma LastStep(items: seq<Json>, keyPath: string, value: string)
    requires items != []
    ensures var n := |items| - 1;
      var before := ScanElements(items[..n], keyPath, value);
      var r := ScanElements(items, keyPath, value);
      && (before.failedAt.Some? ==> r == before)
      && (before.failedAt.None? ==>
            var d := DecisionFor(items[n], keyPath, value);
            && (d == Matcher.Match ==> r == Scan(before.matches + [items[n]], None))
            && (d == Matcher.NoMatch ==> r == before)
            && (d == Matcher.IndexOutOfBounds ==> r == Scan(before.matches, Some(n))))
  {
    DecisionsPrefix(items, |items| - 1, keyPath, value);
  }

  /**
   * The matches are exactly the matching elements before the stopping point,
   * in array order: `idx` lists their positions, strictly increasing, and a
   * position is listed if and only if its element matches.
   */
  lemma MatchesAreTheMatchingElements(items: seq<Json>, keyPath: string, value: string)
    returns (idx: seq<nat>)
    ensures var r := ScanElements(items, keyPath, value);
      && Reached(items, r) <= |items|
      && |idx| == |r.matches|
      && (forall k :: 0 <= k < |idx| ==> idx[k] < Reached(items, r) && r.matches[k] == items[idx[k]])
      && (forall k, l :: 0 <= k < l < |idx| ==> idx[k] < idx[l])
      && (forall i :: 0 <= i < Reached(items, r) ==>
            (DecisionFor(items[i], keyPath, value) == Matcher.Match <==> i in idx))
  {
    var ds := DecisionsOf(items, keyPath, value);
    idx := RunCollectsMatches(items, ds);
    assert forall j :: 0 <= j < |items| ==> ds[j] == DecisionFor(items[j], keyPath, value);
  }

  /** Once the loop has stopped, later elements change nothing. */
  lemma StopAfterFailure(items: seq<Json>, k: nat, keyPath: string, value: string)
    requires k <= |items| && ScanElements(items[..k], keyPath, value).failedAt.Some?
    ensures ScanElements(items, keyPath, value) == ScanElements(items[..k], keyPath, value)
  {
    DecisionsPrefix(items, k, keyPath, value);
    RunStopsAfterFailure(items, DecisionsOf(items, keyPath, value), k);
  }

  /** An element whose key path is absent is never collected, whatever the value. */
  lemma AbsentNeverMatched(items: seq<Json>, keyPath: string, value: string, e: Json)
    requires e in ScanElements(items, keyPath, value).matches
    ensures PathResolver.Resolve(e, keyPath).Some?
  {
    var r := ScanElements(items, keyPath, value);
    var idx := MatchesAreTheMatchingElements(items, keyPath, value);
    var k :| 0 <= k < |r.matches| && r.matches[k] == e;
    assert DecisionFor(items[idx[k]], keyPath, value) == Matcher.Match;
  }

  /**
   * With an empty value nothing throws, and the elements collected are exactly
   * those whose key path is present (a field holding JSON null included).
   */
  lemma EmptyValueSelectsPresent(items: seq<Json>, keyPath: string) returns (idx: seq<nat>)
    ensures var r := ScanElements(items, keyPath, "");
      && r.failedAt.None?
      && |idx| == |r.matches|
      && (forall k :: 0 <= k < |idx| ==> idx[k] < |items| && r.matches[k] == items[idx[k]])
      && (forall k, l :: 0 <= k < l < |idx| ==> idx[k] < idx[l])
      && (forall i :: 0 <= i < |items| ==> (PathResolver.Resolve(items[i], keyPath).Some? <==> i in idx))
  {
    StopsAtFirstFailure(items, keyPath, "");
    idx := MatchesAreTheMatchingElements(items, keyPath, "");
  }

  /** An empty key path selects nothing. */
  lemma {:induction false} EmptyKeyPathSelectsNothing(items: seq<Json>, value: string)
    ensures ScanElements(items, "", value) == Scan([], None)
    decreases |items|
  {
    if items != [] {
      EmptyKeyPathSelectsNothing(items[..|items| - 1], value);
      LastStep(items, "", value);
    }
  }

  /** A record {"age": t} against the value "20-30". */
  lemma AgeRecordDecision(t: int)
    ensures DecisionFor(Obj([Member("age", Num(t))]), "age", "20-30")
         == if 20 <= t <= 30 then Matcher.Match else Matcher.NoMatch
  {
    var e := Obj([Member("age", Num(t))]);
    var twenty, thirty := Text.NatToString(20), Text.NatToString(30);
    assert twenty == "20" && thirty == "30";
    assert twenty + "-" + thirty == "20-30";
    Matcher.RangeIsInclusive(t, 20, 30);
    PathResolver.SingleFieldPath(e, "age");
    assert PathResolver.Resolve(e, "age") == Some(Num(t));
  }

  /** [{"age":25},{"age":31},{"age":17}] filtered by age 20-30 keeps the first record only. */
  lemma AgeRangeExample()
    ensures ScanElements(
              [Obj([Member("age", Num(25))]), Obj([Member("age", Num(31))]), Obj([Member("age", Num(17))])],
              "age", "20-30")
         == Scan([Obj([Member("age", Num(25))])], None)
  {
    var a := Obj([Member("age", Num(25))]);
    var b := Obj([Member("age", Num(31))]);
    var c := Obj([Member("age", Num(17))]);
    AgeRecordDecision(25);
    AgeRecordDecision(31);
    AgeRecordDecision(17);
    ScanStep([], a, "age", "20-30");
    assert [] + [a] == [a];
    ScanStep([a], b, "age", "20-30");
    assert [a] + [b] == [a, b];
    ScanStep([a, b], c, "age", "20-30");
    assert [a, b] + [c] == [a, b, c];
  }

  /** One more element visited by a loop that has not stopped. */
  lemma ScanStep(items: seq<Json>, e: Json, keyPath: string, value: string)
    requires ScanElements(items, keyPath, value).failedAt.None?
    ensures var before := ScanElements(items, keyPath, value);
      ScanElements(items + [e], keyPath, value)
        == match DecisionFor(e, keyPath, value)
           case Match => Scan(before.matches + [e], None)
           case NoMatch => before
           case IndexOutOfBounds => Scan(before.matches, Some(|items|))
  {
    assert (items + [e])[..|items|] == items;
    LastStep(items + [e], keyPath, value);
  }
}
