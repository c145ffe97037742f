/** The parts of jsoncpp's Json::Value that the node manager reads: member
    lookup on objects (isMember, operator[] with an exact key), array
    elements, and asString/asInt of a scalar. Parsing and writing JSON text
    are not modelled; a parse result is an input. The instance registry,
    which reads its replies with cJSON, uses the same tree with the
    differences listed in the README. */
module JsonTree {
  import opened CStr

  datatype Value =
    | Null
    | Bool(b: bool)
    | Number(n: int)
    | Text(s: string)
    | Array(items: seq<Value>)
    | Object(members: map<string, Value>)

  /** isMember: the value is an object with that key. */
  predicate IsMember(v: Value, key: string) {
    v.Object? && key in v.members
  }

  /** operator[] with a key: the member, or null when there is none. */
  function Member(v: Value, key: string): (r: Value)
    ensures IsMember(v, key) ==> r == v.members[key]
    ensures !IsMember(v, key) ==> r == Null
  {
    if IsMember(v, key) then v.members[key] else Null
  }

  /** asString: a string's own text, "" for null, the decimal text of an
      integer, "true"/"false" for a boolean. jsoncpp throws for an array or
      an object; the model gives "" there. */
  function AsString(v: Value): (s: string)
    ensures v.Text? ==> s == v.s
    ensures v.Null? ==> s == ""
    ensures v.Number? ==> Atoi(s) == v.n
  {
    match v
    case Null => ""
    case Bool(b) => if b then "true" else "false"
    case Number(n) =>
      var t := IntToString(n);
      assert t + "" == t;
      AtoiOfIntToString(n, "");
      t
    case Text(s) => s
    case Array(_) => ""
    case Object(_) => ""
  }

  /** asInt: an integer's value, 0 for null, 1 or 0 for a boolean. jsoncpp
      throws for text, arrays and objects and for integers outside the
      32-bit range; the model gives 0 for the former and the value itself
      for the latter. */
  function AsInt(v: Value): (i: int)
    ensures v.Number? ==> i == v.n
    ensures v.Null? ==> i == 0
    ensures v.Bool? ==> (i == 1 <==> v.b)
  {
    match v
    case Number(n) => n
    case Bool(b) => if b then 1 else 0
    case _ => 0
  }

  /** size() and operator[] with an index over an array; any other value
      has no elements. */
  function Elements(v: Value): (r: seq<Value>)
    ensures v.Array? ==> r == v.items
    ensures !v.Array? ==> r == []
  {
    if v.Array? then v.items else []
  }

  /** The asString of each element, in order. */
  function ElementStrings(v: Value): (r: seq<string>)
    ensures |r| == |Elements(v)|
    ensures forall i :: 0 <= i < |r| ==> r[i] == AsString(Elements(v)[i])
  {
    var items := Elements(v);
    seq(|items|, i requires 0 <= i < |items| => AsString(items[i]))
  }

  /** The outcome of parsing a JSON text: whether it parsed, the tree as
      far as the reader got, and the reader's formatted error messages. */
  datatype Parsed = Parsed(ok: bool, root: Value, message: string)
}
