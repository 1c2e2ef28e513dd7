/**
 * The parsed JSON document the panel queries (Jackson's JsonNode tree), with
 * the three node operations the query engine uses: get(field), isNumber() and
 * asText().
 */
module JsonValue {
  import opened Wrappers
  import Text

  /** A JSON value; numbers are integers, objects keep their fields in document order. */
  datatype Json =
    | Null
    | Bool(b: bool)
    | Num(n: int)
    | Str(s: string)
    | Arr(items: seq<Json>)
    | Obj(members: seq<Member>)

  /** One field of an object. */
  datatype Member = Member(name: string, value: Json)

  /** Field names are unique in every object, as in Jackson's ObjectNode (a map). */
  ghost predicate WellFormed(j: Json)
    decreases j
  {
    match j
    case Arr(items) => forall i :: 0 <= i < |items| ==> WellFormed(items[i])
    case Obj(ms) =>
      (forall i, k :: 0 <= i < k < |ms| ==> ms[i].name != ms[k].name)
      && forall i :: 0 <= i < |ms| ==> WellFormed(ms[i].value)
    case _ => true
  }

  /** The value of the first member called `name`. */
  function Find(ms: seq<Member>, name: string): (r: Option<Json>)
    ensures r.None? <==> forall i :: 0 <= i < |ms| ==> ms[i].name != name
    ensures r.Some? ==> exists i :: 0 <= i < |ms| && ms[i] == Member(name, r.value)
  {
    if ms == [] then None
    else if ms[0].name == name then Some(ms[0].value)
    else
      var r := Find(ms[1..], name);
      assert forall i :: 1 <= i < |ms| ==> ms[i] == ms[1..][i - 1];
      r
  }

  /**
   * JsonNode.get(fieldName): the field's value for an object that has it,
   * null (None) for a missing field and for every node that is not an object.
   * A field holding JSON null gives Some(Null), which is not None.
   */
  function Get(node: Json, name: string): (r: Option<Json>)
    ensures !node.Obj? ==> r == None
  {
    if node.Obj? then Find(node.members, name) else None
  }

  /** With unique names, looking up a member's own name finds that member's value. */
  lemma {:induction false} FindOwnName(ms: seq<Member>, i: nat)
    requires i < |ms|
    requires forall a, b :: 0 <= a < b < |ms| ==> ms[a].name != ms[b].name
    ensures Find(ms, ms[i].name) == Some(ms[i].value)
  {
    if i > 0 {
      FindOwnName(ms[1..], i - 1);
    }
  }

  /** JsonNode.isNumber(). */
  predicate IsNumber(j: Json) {
    j.Num?
  }

  /**
   * JsonNode.asText(): a string is its own text, a number its decimal
   * rendering, null and booleans their literals, and containers the empty string.
   */
  function AsText(j: Json): string {
    match j
    case Null => "null"
    case Bool(b) => if b then "true" else "false"
    case Num(n) => Text.IntToString(n)
    case Str(s) => s
    case Arr(_) => ""
    case Obj(_) => ""
  }
}
