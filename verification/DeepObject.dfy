/** style=deepObject query parameters: printing a JSON object, and reading it back. */
module DeepObject {
  import opened Common

  /**
   serde_json::Value.  A number is the text it prints as; an object lists its members in the map's own
   iteration order.
   */
  datatype Json =
    | Null
    | Bool(b: bool)
    | Number(text: string)
    | Str(s: string)
    | Array(items: seq<Json>)
    | Object(members: seq<Member>)

  datatype Member = Member(key: string, value: Json)

  type Param = (string, string)

  /** The text of a scalar. */
  function Text(v: Json): string {
    match v
    case Null => "null"
    case Bool(b) => if b then "true" else "false"
    case Number(text) => text
    case Str(s) => s
    case _ => ""
  }

  /** usize as Display prints it. */
  function Decimal(n: nat): string {
    if n < 10 then ["0123456789"[n]] else Decimal(n / 10) + ["0123456789"[n % 10]]
  }

  // ---------------------------------------------------------------- parse_deep_object

  function Append(front: seq<Param>, rest: Option<seq<Param>>): Option<seq<Param>> {
    if rest.Some? then Some(front + rest.value) else None
  }

  lemma AppendNothing(rest: Option<seq<Param>>)
    ensures Append([], rest) == rest
  {
    assert rest.Some? ==> [] + rest.value == rest.value;
  }

  lemma AppendTwice(a: seq<Param>, b: seq<Param>, rest: Option<seq<Param>>)
    ensures Append(a, Append(b, rest)) == Append(a + b, rest)
  {
    assert rest.Some? ==> a + (b + rest.value) == a + b + rest.value;
  }

  /** None where the source panics: only objects are supported. */
  function Flatten(prefix: string, v: Json): Option<seq<Param>>
    decreases v, 1
  {
    if v.Object? then FlattenMembers(prefix, v.members) else None
  }

  function FlattenMember(prefix: string, m: Member): Option<seq<Param>>
    decreases m, 0
  {
    var name := prefix + "[" + m.key + "]";
    match m.value
    case Object(_) => Flatten(name, m.value)
    case Array(items) => FlattenItems(name, items, 0)
    case _ => Some([(name, Text(m.value))])
  }

  function FlattenMembers(prefix: string, ms: seq<Member>): Option<seq<Param>>
    decreases ms, 0
  {
    if ms == [] then Some([])
    else
      var head := FlattenMember(prefix, ms[0]);
      if head.None? then None else Append(head.value, FlattenMembers(prefix, ms[1..]))
  }

  /** The elements of an array from the `i`th on, `i` being where `items` starts. */
  function FlattenItems(name: string, items: seq<Json>, i: nat): Option<seq<Param>>
    decreases items, 0
  {
    if items == [] then Some([])
    else
      var head := Flatten(name + "[" + Decimal(i) + "]", items[0]);
      if head.None? then None else Append(head.value, FlattenItems(name, items[1..], i + 1))
  }

  method ParseDeepObject(prefix: string, value: Json) returns (params: Option<seq<Param>>)
    ensures params == Flatten(prefix, value)
    decreases value
  {
    if !value.Object? {
      return None;
    }
    var out: seq<Param> := [];
    var k := 0;
    assert value.members[0..] == value.members;
    AppendNothing(FlattenMembers(prefix, value.members));
    while k < |value.members|
      invariant 0 <= k <= |value.members|
      invariant Flatten(prefix, value) == Append(out, FlattenMembers(prefix, value.members[k..]))
    {
      var Member(key, member) := value.members[k];
      ghost var rest := FlattenMembers(prefix, value.members[k + 1..]);
      ghost var before := out;
      assert value.members[k..][0] == value.members[k] && value.members[k..][1..] == value.members[k + 1..];
      ghost var head := FlattenMember(prefix, value.members[k]);
      assert FlattenMembers(prefix, value.members[k..]) == if head.None? then None else Append(head.value, rest);
      var name := prefix + "[" + key + "]";
      match member {
        case Object(_) =>
          var inner := ParseDeepObject(name, member);
          if inner.None? {
            return None;
          }
          out := out + inner.value;
        case Array(items) =>
          var i := 0;
          assert items[0..] == items;
          AppendNothing(FlattenItems(name, items, 0));
          ghost var added: seq<Param> := [];
          while i < |items|
            invariant 0 <= i <= |items|
            invariant out == before + added
            invariant FlattenItems(name, items, 0) == Append(added, FlattenItems(name, items[i..], i))
          {
            assert items[i..][0] == items[i] && items[i..][1..] == items[i + 1..];
            var inner := ParseDeepObject(name + "[" + Decimal(i) + "]", items[i]);
            if inner.None? {
              return None;
            }
            AppendTwice(added, inner.value, FlattenItems(name, items[i + 1..], i + 1));
            out := out + inner.value;
            added := added + inner.value;
            i := i + 1;
          }
          assert Append(added, Some([])) == Some(added) by { assert added + [] == added; }
        case _ =>
          out := out + [(name, Text(member))];
      }
      assert head.Some? && out == before + head.value;
      AppendTwice(before, head.value, rest);
      k := k + 1;
    }
    assert Append(out, Some([])) == Some(out) by { assert out + [] == out; }
    return Some(out);
  }
}
