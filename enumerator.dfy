/**
 * Key-path enumeration (extractKeyPaths into the TreeSet of inspectKeys):
 * every object field, at any depth, contributes its dotted path; arrays are
 * looked through with the same prefix; scalars contribute nothing.
 */
module KeyPaths {
  import opened Wrappers
  import opened JsonValue
  import Text
  import PathResolver

  /** The path of `field` below `prefix`: the field alone under the empty prefix. */
  function Dotted(prefix: string, field: string): string {
    if prefix == "" then field else prefix + "." + field
  }

  // ---------------------------------------------------------------------------
  // The paths, as a set

  /** Every path the walk from `node` under `prefix` adds. */
  function Paths(node: Json, prefix: string): set<string>
    decreases node
  {
    match node
    case Obj(ms) => MemberPaths(ms, prefix)
    case Arr(items) => ItemPaths(items, prefix)
    case _ => {}
  }

  /** The paths added while visiting the members in order. */
  function MemberPaths(ms: seq<Member>, prefix: string): set<string>
    decreases ms
  {
    if ms == [] then {}
    else
      var last := ms[|ms| - 1];
      var full := Dotted(prefix, last.name);
      MemberPaths(ms[..|ms| - 1], prefix) + {full} + Paths(last.value, full)
  }

  /** The paths added while visiting the array elements, all under the same prefix. */
  function ItemPaths(items: seq<Json>, prefix: string): set<string>
    decreases items
  {
    if items == [] then {}
    else ItemPaths(items[..|items| - 1], prefix) + Paths(items[|items| - 1], prefix)
  }

  // ---------------------------------------------------------------------------
  // The TreeSet<String>

  /** A sorted set of strings: its iteration order is compareTo order, without duplicates. */
  class KeySet {
    var elems: seq<string>

    predicate Valid()
      reads this
    {
      Text.StrictlySorted(elems)
    }

    function Contents(): set<string>
      reads this
    {
      ElementsOf(elems)
    }

    constructor ()
      ensures Valid() && elems == []
    {
      elems := [];
    }

    /** TreeSet.add: inserts at the ordered position, does nothing if already there. */
    method Add(x: string)
      requires Valid()
      modifies this
      ensures Valid()
      ensures Contents() == old(Contents()) + {x}
    {
      var i := 0;
      while i < |elems| && Text.Less(elems[i], x)
        invariant 0 <= i <= |elems|
        invariant forall k :: 0 <= k < i ==> Text.Less(elems[k], x)
      {
        i := i + 1;
      }
      if i < |elems| && elems[i] == x {
        return;
      }
      InsertKeepsOrder(elems, i, x);
      elems := elems[..i] + [x] + elems[i..];
    }
  }

  /** The strings a sequence holds. */
  function ElementsOf(s: seq<string>): set<string> {
    set i | 0 <= i < |s| :: s[i]
  }

  /**
   * Inserting x at the first position whose element is not below it, when
   * that element is not x itself, keeps a strictly sorted sequence strictly
   * sorted and adds exactly x.
   */
  lemma InsertKeepsOrder(s: seq<string>, i: nat, x: string)
    requires Text.StrictlySorted(s) && i <= |s|
    requires forall k :: 0 <= k < i ==> Text.Less(s[k], x)
    requires i < |s| ==> s[i] != x && !Text.Less(s[i], x)
    ensures Text.StrictlySorted(s[..i] + [x] + s[i..])
    ensures ElementsOf(s[..i] + [x] + s[i..]) == ElementsOf(s) + {x}
  {
    var t := s[..i] + [x] + s[i..];
    InsertSorted(s, i, x);
    assert forall k :: 0 <= k < i ==> t[k] == s[k];
    assert forall k :: i < k < |t| ==> t[k] == s[k - 1];
    forall y | y in ElementsOf(s) + {x}
      ensures y in ElementsOf(t)
    {
      if y != x {
        var k :| 0 <= k < |s| && s[k] == y;
        if k < i { assert t[k] == y; } else { assert t[k + 1] == y; }
      } else {
        assert t[i] == x;
      }
    }
  }

  /** The order half of InsertKeepsOrder. */
  lemma InsertSorted(s: seq<string>, i: nat, x: string)
    requires Text.StrictlySorted(s) && i <= |s|
    requires forall k :: 0 <= k < i ==> Text.Less(s[k], x)
    requires i < |s| ==> s[i] != x && !Text.Less(s[i], x)
    ensures Text.StrictlySorted(s[..i] + [x] + s[i..])
  {
    var t := s[..i] + [x] + s[i..];
    if i < |s| {
      Text.LessTotal(x, s[i]);
      forall k | i < k < |s|
        ensures Text.Less(x, s[k])
      {
        Text.LessTransitive(x, s[i], s[k]);
      }
    }
    assert forall k :: 0 <= k < i ==> t[k] == s[k];
    assert forall k :: i < k < |t| ==> t[k] == s[k - 1];
    forall a, b | 0 <= a < b < |t|
      ensures Text.Less(t[a], t[b])
    {
      if a < i && i < b {
        Text.LessTransitive(s[a], x, s[b - 1]);
      }
    }
  }

  /**
   * extractKeyPaths: the recursive walk that adds `prefix.field` for every
   * field of every object it reaches, recursing below it, and recurses into
   * array elements with an unchanged prefix.
   */
  method ExtractKeyPaths(node: Json, prefix: string, keys: KeySet)
    requires keys.Valid()
    modifies keys
    ensures keys.Valid()
    ensures keys.Contents() == old(keys.Contents()) + Paths(node, prefix)
    decreases node
  {
    match node
    case Obj(ms) =>
      for i := 0 to |ms|
        invariant keys.Valid()
        invariant keys.Contents() == old(keys.Contents()) + MemberPaths(ms[..i], prefix)
      {
        var field, child := ms[i].name, ms[i].value;
        var fullPath := if prefix == "" then field else prefix + "." + field;
        keys.Add(fullPath);
        ExtractKeyPaths(child, fullPath, keys);
        assert ms[..i + 1][..i] == ms[..i];
      }
      assert ms[..|ms|] == ms;
    case Arr(items) =>
      for i := 0 to |items|
        invariant keys.Valid()
        invariant keys.Contents() == old(keys.Contents()) + ItemPaths(items[..i], prefix)
      {
        ExtractKeyPaths(items[i], prefix, keys);
        assert items[..i + 1][..i] == items[..i];
      }
      assert items[..|items|] == items;
    case _ =>
  }

  /** In well-formed JSON, fetching a field by its name (as the walk does) gives that member's value. */
  lemma FieldLookupDuringWalk(ms: seq<Member>, i: nat)
    requires WellFormed(Obj(ms)) && i < |ms|
    ensures Get(Obj(ms), ms[i].name) == Some(ms[i].value)
  {
    FindOwnName(ms, i);
  }

  // ---------------------------------------------------------------------------
  // The paths, as routes of field names

  /** The string the walk builds under `prefix` for a route of field names. */
  function Spell(prefix: string, route: seq<string>): string
    decreases |route|
  {
    if route == [] then prefix else Spell(Dotted(prefix, route[0]), route[1..])
  }

  /**
   * `route` is a non-empty sequence of field names leading from `node` to a
   * field: each name is a field of the object reached so far, and arrays on
   * the way are passed through without using up a name.
   */
  ghost predicate IsRoute(node: Json, route: seq<string>)
    decreases node
  {
    match node
    case Obj(ms) =>
      && route != []
      && exists i :: 0 <= i < |ms| && ms[i].name == route[0] && (|route| == 1 || IsRoute(ms[i].value, route[1..]))
    case Arr(items) => exists i :: 0 <= i < |items| && IsRoute(items[i], route)
    case _ => false
  }

  lemma {:induction false} RouteIsNonEmpty(node: Json, route: seq<string>)
    requires IsRoute(node, route)
    ensures route != []
    decreases node
  {
    if node.Arr? {
      var i :| 0 <= i < |node.items| && IsRoute(node.items[i], route);
      RouteIsNonEmpty(node.items[i], route);
    }
  }

  /** Every enumerated path is the spelling of a route. */
  lemma {:induction false} RouteOf(node: Json, prefix: string, s: string) returns (route: seq<string>)
    requires s in Paths(node, prefix)
    ensures IsRoute(node, route) && Spell(prefix, route) == s
    decreases node
  {
    match node
    case Obj(ms) => route := MemberRouteOf(ms, prefix, s);
    case Arr(items) => route := ItemRouteOf(items, prefix, s);
  }

  lemma {:induction false} MemberRouteOf(ms: seq<Member>, prefix: string, s: string) returns (route: seq<string>)
    requires s in MemberPaths(ms, prefix)
    ensures IsRoute(Obj(ms), route) && Spell(prefix, route) == s
    decreases ms
  {
    var n := |ms| - 1;
    var last := ms[n];
    var full := Dotted(prefix, last.name);
    if s in MemberPaths(ms[..n], prefix) {
      route := MemberRouteOf(ms[..n], prefix, s);
      var i :| 0 <= i < n && ms[..n][i].name == route[0]
        && (|route| == 1 || IsRoute(ms[..n][i].value, route[1..]));
      assert ms[i] == ms[..n][i];
    } else if s == full {
      route := [last.name];
      assert Spell(prefix, route) == Spell(full, []);
    } else {
      var rest := RouteOf(last.value, full, s);
      route := [last.name] + rest;
      assert route[1..] == rest;
    }
  }

  lemma {:induction false} ItemRouteOf(items: seq<Json>, prefix: string, s: string) returns (route: seq<string>)
    requires s in ItemPaths(items, prefix)
    ensures IsRoute(Arr(items), route) && Spell(prefix, route) == s
    decreases items
  {
    var n := |items| - 1;
    if s in ItemPaths(items[..n], prefix) {
      route := ItemRouteOf(items[..n], prefix, s);
      var i :| 0 <= i < n && IsRoute(items[..n][i], route);
      assert items[i] == items[..n][i];
    } else {
      route := RouteOf(items[n], prefix, s);
    }
  }

  /** Member i's path, and every path below it, was added while visiting members. */
  lemma {:induction false} MemberPathsHave(ms: seq<Member>, prefix: string, i: nat)
    requires i < |ms|
    ensures Dotted(prefix, ms[i].name) in MemberPaths(ms, prefix)
    ensures Paths(ms[i].value, Dotted(prefix, ms[i].name)) <= MemberPaths(ms, prefix)
    decreases ms
  {
    if i < |ms| - 1 {
      MemberPathsHave(ms[..|ms| - 1], prefix, i);
    }
  }

  /** Element i's paths were added while visiting the array. */
  lemma {:induction false} ItemPathsHave(items: seq<Json>, prefix: string, i: nat)
    requires i < |items|
    ensures Paths(items[i], prefix) <= ItemPaths(items, prefix)
    decreases items
  {
    if i < |items| - 1 {
      ItemPathsHave(items[..|items| - 1], prefix, i);
    }
  }

  /** The spelling of every route is enumerated. */
  lemma {:induction false} RouteIsEnumerated(node: Json, route: seq<string>, prefix: string)
    requires IsRoute(node, route)
    ensures Spell(prefix, route) in Paths(node, prefix)
    decreases node
  {
    match node
    case Obj(ms) =>
      var i :| 0 <= i < |ms| && ms[i].name == route[0]
        && (|route| == 1 || IsRoute(ms[i].value, route[1..]));
      MemberPathsHave(ms, prefix, i);
      var full := Dotted(prefix, route[0]);
      if |route| == 1 {
        assert Spell(prefix, route) == Spell(full, []);
      } else {
        RouteIsEnumerated(ms[i].value, route[1..], full);
      }
    case Arr(items) =>
      var i :| 0 <= i < |items| && IsRoute(items[i], route);
      ItemPathsHave(items, prefix, i);
      RouteIsEnumerated(items[i], route, prefix);
  }

  /** Routes are closed under taking non-empty prefixes. */
  lemma {:induction false} RoutePrefix(node: Json, route: seq<string>, k: nat)
    requires IsRoute(node, route) && 1 <= k <= |route|
    ensures IsRoute(node, route[..k])
    decreases node
  {
    match node
    case Obj(ms) =>
      var i :| 0 <= i < |ms| && ms[i].name == route[0]
        && (|route| == 1 || IsRoute(ms[i].value, route[1..]));
      if k > 1 {
        RoutePrefix(ms[i].value, route[1..], k - 1);
        assert route[..k][1..] == route[1..][..k - 1];
      }
    case Arr(items) =>
      var i :| 0 <= i < |items| && IsRoute(items[i], route);
      RoutePrefix(items[i], route, k);
  }

  /**
   * Every dotted prefix of an enumerated path is enumerated too: the path
   * spells a route, and the spelling of each non-empty prefix of that route
   * is in the set.
   */
  lemma DottedPrefixesEnumerated(node: Json, s: string) returns (route: seq<string>)
    requires s in Paths(node, "")
    ensures route != [] && Spell("", route) == s
    ensures forall k :: 1 <= k <= |route| ==> Spell("", route[..k]) in Paths(node, "")
  {
    route := RouteOf(node, "", s);
    RouteIsNonEmpty(node, route);
    forall k | 1 <= k <= |route|
      ensures Spell("", route[..k]) in Paths(node, "")
    {
      RoutePrefix(node, route, k);
      RouteIsEnumerated(node, route[..k], "");
    }
  }

  /** A path that resolves to something is a route, so its spelling is enumerated. */
  lemma {:induction false} ResolvedPiecesAreRoute(node: Json, pieces: seq<string>)
    requires pieces != [] && PathResolver.Walk(Some(node), pieces).Some?
    ensures IsRoute(node, pieces)
    ensures Spell("", pieces) in Paths(node, "")
    decreases |pieces|
  {
    var next := Get(node, pieces[0]);
    if next.None? {
      PathResolver.WalkNone(pieces[1..]);
    }
    var ms := node.members;
    var i :| 0 <= i < |ms| && ms[i] == Member(pieces[0], next.value);
    if |pieces| > 1 {
      ResolvedPiecesAreRoute(next.value, pieces[1..]);
    }
    RouteIsEnumerated(node, pieces, "");
  }

  /** Arrays add no segment: a path is enumerated for an array exactly when it is for one of its elements. */
  lemma {:induction false} ArrayPathsAreElementPaths(items: seq<Json>, prefix: string, s: string)
    ensures s in Paths(Arr(items), prefix) <==> exists i :: 0 <= i < |items| && s in Paths(items[i], prefix)
    decreases items
  {
    if items != [] {
      var n := |items| - 1;
      ArrayPathsAreElementPaths(items[..n], prefix, s);
      if exists i :: 0 <= i < n && s in Paths(items[..n][i], prefix) {
        var i :| 0 <= i < n && s in Paths(items[..n][i], prefix);
        assert items[i] == items[..n][i];
      }
      if exists i :: 0 <= i < |items| && s in Paths(items[i], prefix) {
        var i :| 0 <= i < |items| && s in Paths(items[i], prefix);
        if i < n {
          assert items[..n][i] == items[i];
        }
      }
    }
  }

  /** Wrapping a value in arrays, however deep, changes none of its paths. */
  lemma {:induction false} NestingInArraysChangesNothing(node: Json, depth: nat, prefix: string)
    ensures Paths(Wrap(node, depth), prefix) == Paths(node, prefix)
    decreases depth
  {
    if depth > 0 {
      NestingInArraysChangesNothing(node, depth - 1, prefix);
      var inner := Wrap(node, depth - 1);
      assert [inner][..0] == [];
      assert ItemPaths([inner], prefix) == ItemPaths([], prefix) + Paths(inner, prefix);
    }
  }

  /** `node` inside `depth` single-element arrays. */
  function Wrap(node: Json, depth: nat): Json {
    if depth == 0 then node else Arr([Wrap(node, depth - 1)])
  }

  /** [{"a":{"b":1}}, {"a":{"c":2}}] has exactly the paths a, a.b and a.c. */
  lemma TwoRecordsExample()
    ensures Paths(Arr([Obj([Member("a", Obj([Member("b", Num(1))]))]),
                       Obj([Member("a", Obj([Member("c", Num(2))]))])]), "")
         == {"a", "a.b", "a.c"}
  {
    var first := Obj([Member("a", Obj([Member("b", Num(1))]))]);
    var second := Obj([Member("a", Obj([Member("c", Num(2))]))]);
    assert [first, second][..1] == [first] && [first][..0] == [];
    var ab: seq<Member> := [Member("b", Num(1))];
    var ac: seq<Member> := [Member("c", Num(2))];
    assert ab[..0] == [] && ac[..0] == [];
    assert Dotted("a", "b") == "a.b" && Dotted("a", "c") == "a.c" && Dotted("", "a") == "a";
    assert Paths(Obj(ab), "a") == {"a.b"};
    assert Paths(Obj(ac), "a") == {"a.c"};
    var fa: seq<Member> := [Member("a", Obj(ab))];
    var sa: seq<Member> := [Member("a", Obj(ac))];
    assert fa[..0] == [] && sa[..0] == [];
    assert Paths(first, "") == {"a", "a.b"};
    assert Paths(second, "") == {"a", "a.c"};
  }

  /**
   * Why prefixes are stated on routes and not on strings: a field name may
   * itself hold a dot, so "a.b" can be listed while "a" is not.
   */
  lemma DottedFieldNameHasNoPrefix()
    ensures Paths(Obj([Member("a.b", Null)]), "") == {"a.b"}
    ensures "a" !in Paths(Obj([Member("a.b", Null)]), "")
  {
    var ms: seq<Member> := [Member("a.b", Null)];
    assert ms[..0] == [];
    assert Dotted("", "a.b") == "a.b";
    assert "a" != "a.b" by { assert |"a"| != |"a.b"|; }
  }
}
