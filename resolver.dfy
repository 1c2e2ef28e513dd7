/**
 * Key-path resolution (getValueAtKeyPath): a dotted path is split on '.' and
 * followed through object fields only.
 */
module PathResolver {
  import opened Wrappers
  import opened JsonValue
  import Text

  /** Follows the pieces left to right; a missing node stays missing. */
  function Walk(node: Option<Json>, pieces: seq<string>): Option<Json>
    decreases |pieces|
  {
    if pieces == [] then node
    else if node.None? then None
    else Walk(Get(node.value, pieces[0]), pieces[1..])
  }

  /** What getValueAtKeyPath(node, path) answers; None stands for Java's null (absent). */
  function Resolve(node: Json, path: string): Option<Json> {
    if path == "" then None else Walk(Some(node), Text.Split(path, '.'))
  }

  /** getValueAtKeyPath: reassigns the current node once per piece of the path. */
  method GetValueAtKeyPath(node: Json, path: string) returns (r: Option<Json>)
    ensures path == "" ==> r == None
    ensures r == Resolve(node, path)
  {
    if path == "" {
      return None;
    }
    var parts := Text.Split(path, '.');
    var current := Some(node);
    for i := 0 to |parts|
      invariant Walk(current, parts[i..]) == Walk(Some(node), parts)
    {
      if current.None? {
        return None;
      }
      current := Get(current.value, parts[i]);
    }
    return current;
  }

  /** Once a walk is absent it stays absent. */
  lemma {:induction false} WalkNone(pieces: seq<string>)
    ensures Walk(None, pieces) == None
  {
  }

  /** Walking a concatenation of pieces is walking the first part, then the second from there. */
  lemma {:induction false} WalkAppend(node: Option<Json>, a: seq<string>, b: seq<string>)
    ensures Walk(node, a + b) == Walk(Walk(node, a), b)
    decreases |a|
  {
    if a == [] {
      assert a + b == b;
    } else if node.None? {
      WalkNone(b);
    } else {
      assert (a + b)[0] == a[0] && (a + b)[1..] == a[1..] + b;
      WalkAppend(Get(node.value, a[0]), a[1..], b);
    }
  }

  /**
   * The walk gives absent as soon as one step fails: if the node reached after
   * the first k pieces is absent, or is not an object holding piece k, the
   * whole walk is absent.
   */
  lemma StopsAtFirstMissingStep(node: Json, pieces: seq<string>, k: nat)
    requires k < |pieces|
    requires Walk(Some(node), pieces[..k]).None?
      || Get(Walk(Some(node), pieces[..k]).value, pieces[k]).None?
    ensures Walk(Some(node), pieces) == None
  {
    assert pieces == pieces[..k] + pieces[k..];
    WalkAppend(Some(node), pieces[..k], pieces[k..]);
    WalkNone(pieces[k..]);
    if Walk(Some(node), pieces[..k]).Some? {
      WalkNone(pieces[k + 1..]);
    }
  }

  /** A present result means every step went through an object that held the next piece. */
  lemma {:induction false} PresentMeansEveryStepPresent(node: Json, pieces: seq<string>, k: nat)
    requires k < |pieces|
    requires Walk(Some(node), pieces).Some?
    ensures Walk(Some(node), pieces[..k]).Some?
    ensures Walk(Some(node), pieces[..k]).value.Obj?
    ensures Get(Walk(Some(node), pieces[..k]).value, pieces[k]).Some?
  {
    if Walk(Some(node), pieces[..k]).None?
      || Get(Walk(Some(node), pieces[..k]).value, pieces[k]).None?
    {
      StopsAtFirstMissingStep(node, pieces, k);
    }
  }

  /** A path without dots is a single field lookup; a field holding JSON null is present. */
  lemma SingleFieldPath(node: Json, field: string)
    requires field != "" && '.' !in field
    ensures Resolve(node, field) == Get(node, field)
    ensures Resolve(Obj([Member(field, Null)]), field) == Some(Null)
  {
    assert Text.Split(field, '.') == [field];
    assert [field][1..] == [];
    assert Walk(Some(node), [field]) == Walk(Get(node, field), []);
    var withNull := Obj([Member(field, Null)]);
    assert Walk(Some(withNull), [field]) == Walk(Get(withNull, field), []);
    assert Find([Member(field, Null)], field) == Some(Null);
  }

  /**
   * A path spelled from dot-free pieces, the last one non-empty, resolves by
   * walking exactly those pieces: splitting recovers them.
   */
  lemma ResolveJoinedPieces(node: Json, pieces: seq<string>)
    requires |pieces| >= 1 && pieces[|pieces| - 1] != ""
    requires forall i :: 0 <= i < |pieces| ==> '.' !in pieces[i]
    ensures Resolve(node, Text.JoinWith(pieces, '.')) == Walk(Some(node), pieces)
  {
    var path := Text.JoinWith(pieces, '.');
    Text.SplitAllJoin(pieces, '.');
    if |pieces| == 1 {
      assert path == pieces[0];
      assert Text.Split(path, '.') == pieces;
    } else {
      var tail := Text.JoinWith(pieces[1..], '.');
      assert path == pieces[0] + ['.'] + tail;
      assert path[|pieces[0]|] == '.';
      assert '.' in path;
      assert Text.DropTrailingEmpty(pieces) == pieces;
      assert Text.Split(path, '.') == pieces;
    }
    assert path != "";
  }

  /** A path made of dots only splits into no pieces at all, so it resolves to the element itself. */
  lemma DotsOnlyPath(node: Json, path: string)
    requires path != "" && forall i :: 0 <= i < |path| ==> path[i] == '.'
    ensures Resolve(node, path) == Some(node)
  {
    assert path[0] == '.';
    var all := Text.SplitAll(path, '.');
    Text.SplitAllOnlySeps(path, '.');
    assert Text.Split(path, '.') == [];
  }

  /** A trailing dot is ignored, because split drops trailing empty pieces. */
  lemma TrailingDotIgnored(node: Json, path: string)
    requires path != ""
    ensures Resolve(node, path + ".") == Resolve(node, path)
  {
    var longer := path + ".";
    Text.SplitAllTrailingSep(path, '.');
    assert '.' in longer by { assert longer[|path|] == '.'; }
    var all := Text.SplitAll(path, '.');
    var allLonger := Text.SplitAll(longer, '.');
    assert allLonger == all + [""];
    assert Text.DropTrailingEmpty(allLonger) == Text.DropTrailingEmpty(all);
    if '.' !in path {
      Text.SplitAllNoSep(path, '.');
    }
  }
}
