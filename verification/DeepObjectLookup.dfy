/** What parse_deep_object prints, in terms of looking values up by key and index. */
module DeepObjectLookup {
  import opened Common
  import opened DeepObject
  import opened DeepObjectLaws
  import opened DeepObjectCodec

  // ---------------------------------------------------------------- decimal numbers

  function Digit(c: char): nat {
    if '0' <= c <= '9' then c as int - '0' as int else 10
  }

  /** A digit string read in base ten. */
  function Value(s: string): nat
    decreases |s|
  {
    if s == "" then 0 else Value(s[..|s| - 1]) * 10 + Digit(s[|s| - 1])
  }

  predicate AllDigits(s: string) {
    forall i | 0 <= i < |s| :: Digit(s[i]) < 10
  }

  /** An index is printed in base ten without leading zeros. */
  lemma {:induction false} DecimalReads(n: nat)
    ensures Decimal(n) != "" && AllDigits(Decimal(n)) && Value(Decimal(n)) == n
    ensures Decimal(n)[0] == '0' ==> n == 0
  {
    var s := Decimal(n);
    assert Digit("0123456789"[n % 10]) == n % 10;
    if n < 10 {
      assert s[..0] == "" && Value(s[..0]) == 0;
    } else {
      DecimalReads(n / 10);
      assert s[..|s| - 1] == Decimal(n / 10);
      assert s[0] == Decimal(n / 10)[0];
    }
  }

  // ---------------------------------------------------------------- lookups

  /** Following the path through `v`, a key at an object and an index at an array, leads to `x`. */
  ghost predicate Holds(v: Json, path: seq<string>, x: Json)
    decreases |path|
  {
    if path == [] then v == x
    else
      match v
      case Array(items) => exists i :: 0 <= i < |items| && path[0] == Decimal(i) && Holds(items[i], path[1..], x)
      case Object(ms) => exists j :: 0 <= j < |ms| && path[0] == ms[j].key && Holds(ms[j].value, path[1..], x)
      case _ => false
  }

  /** A scalar with this text is there. */
  ghost predicate HoldsText(v: Json, path: seq<string>, text: string) {
    exists x :: IsScalar(x) && Text(x) == text && Holds(v, path, x)
  }

  lemma {:induction false} UnderMember(key: string, leaves: seq<Leaf>, l: Leaf)
    ensures l in Under(key, leaves) <==> l.path != [] && l.path[0] == key && Leaf(l.path[1..], l.text) in leaves
  {
    UnderElements(key, leaves);
    assert l in Under(key, leaves) <==> l in Elements(Under(key, leaves));
    if l in Under(key, leaves) {
      var m :| m in Elements(leaves) && l == Leaf([key] + m.path, m.text);
      assert l.path[1..] == m.path;
    }
    if l.path != [] && l.path[0] == key && Leaf(l.path[1..], l.text) in leaves {
      var m := Leaf(l.path[1..], l.text);
      assert m in Elements(leaves) && l == Leaf([key] + m.path, m.text);
    }
  }

  lemma {:induction false} MemberLeafIff(ms: seq<Member>, l: Leaf)
    ensures l in MemberLeaves(ms) <==>
            l.path != [] && exists j :: 0 <= j < |ms| && l.path[0] == ms[j].key
                                        && Leaf(l.path[1..], l.text) in Leaves(ms[j].value)
  {
    if ms != [] {
      UnderMember(ms[0].key, Leaves(ms[0].value), l);
      MemberLeafIff(ms[1..], l);
      if l in MemberLeaves(ms[1..]) {
        var j :| 0 <= j < |ms| - 1 && l.path[0] == ms[1..][j].key
                 && Leaf(l.path[1..], l.text) in Leaves(ms[1..][j].value);
        assert ms[1..][j] == ms[j + 1];
      }
      if j :| 0 < j < |ms| && l.path != [] && l.path[0] == ms[j].key
              && Leaf(l.path[1..], l.text) in Leaves(ms[j].value) {
        assert ms[1..][j - 1] == ms[j];
      }
    }
  }

  lemma {:induction false} ItemLeafIff(items: seq<Json>, k: nat, l: Leaf)
    ensures l in ItemLeaves(items, k) <==>
            l.path != [] && exists i :: 0 <= i < |items| && l.path[0] == Decimal(k + i)
                                        && Leaf(l.path[1..], l.text) in Leaves(items[i])
    decreases |items|
  {
    if items != [] {
      UnderMember(Decimal(k), Leaves(items[0]), l);
      ItemLeafIff(items[1..], k + 1, l);
      if l in ItemLeaves(items[1..], k + 1) {
        var i :| 0 <= i < |items| - 1 && l.path[0] == Decimal(k + 1 + i)
                 && Leaf(l.path[1..], l.text) in Leaves(items[1..][i]);
        assert items[1..][i] == items[i + 1] && k + 1 + i == k + (i + 1);
      }
      if i :| 0 < i < |items| && l.path != [] && l.path[0] == Decimal(k + i)
              && Leaf(l.path[1..], l.text) in Leaves(items[i]) {
        assert items[1..][i - 1] == items[i] && k + 1 + (i - 1) == k + i;
      }
    }
  }

  lemma ObjectHolds(ms: seq<Member>, path: seq<string>, text: string)
    requires path != []
    ensures HoldsText(Object(ms), path, text) <==>
            exists j :: 0 <= j < |ms| && path[0] == ms[j].key && HoldsText(ms[j].value, path[1..], text)
  {
    if j :| 0 <= j < |ms| && path[0] == ms[j].key && HoldsText(ms[j].value, path[1..], text) {
      var x :| IsScalar(x) && Text(x) == text && Holds(ms[j].value, path[1..], x);
      assert Holds(Object(ms), path, x);
    }
  }

  lemma ArrayHolds(items: seq<Json>, path: seq<string>, text: string)
    requires path != []
    ensures HoldsText(Array(items), path, text) <==>
            exists i :: 0 <= i < |items| && path[0] == Decimal(i) && HoldsText(items[i], path[1..], text)
  {
    if i :| 0 <= i < |items| && path[0] == Decimal(i) && HoldsText(items[i], path[1..], text) {
      var x :| IsScalar(x) && Text(x) == text && Holds(items[i], path[1..], x);
      assert Holds(Array(items), path, x);
    }
  }

  /** A leaf is listed exactly when looking its path up finds a scalar with its text. */
  lemma {:induction false} LeafIffHeld(v: Json, path: seq<string>, text: string)
    ensures Leaf(path, text) in Leaves(v) <==> HoldsText(v, path, text)
    decreases |path|
  {
    var l := Leaf(path, text);
    match v {
      case Array(items) =>
        ItemLeafIff(items, 0, l);
        if path != [] {
          forall i | 0 <= i < |items|
            ensures Leaf(path[1..], text) in Leaves(items[i]) <==> HoldsText(items[i], path[1..], text)
          {
            LeafIffHeld(items[i], path[1..], text);
          }
          ArrayHolds(items, path, text);
        }
      case Object(ms) =>
        MemberLeafIff(ms, l);
        if path != [] {
          forall j | 0 <= j < |ms|
            ensures Leaf(path[1..], text) in Leaves(ms[j].value) <==> HoldsText(ms[j].value, path[1..], text)
          {
            LeafIffHeld(ms[j].value, path[1..], text);
          }
          ObjectHolds(ms, path, text);
        }
      case _ =>
        assert Holds(v, [], v);
    }
  }

  /** A parameter is printed exactly when it names a path at which the value holds a scalar with its text. */
  lemma PrintedIffHeld(prefix: string, v: Json, param: Param)
    requires Flatten(prefix, v).Some?
    ensures param in Flatten(prefix, v).value <==>
            exists path :: param.0 == prefix + Brackets(path) && HoldsText(v, path, param.1)
  {
    LeafCorrespondence(prefix, v);
    NamedElements(prefix, Leaves(v));
    assert param in Flatten(prefix, v).value <==> param in ParamSet(Named(prefix, Leaves(v)));
    if param in Flatten(prefix, v).value {
      var l :| l in Elements(Leaves(v)) && param == (prefix + Brackets(l.path), l.text);
      LeafIffHeld(v, l.path, l.text);
    }
    if path :| param.0 == prefix + Brackets(path) && HoldsText(v, path, param.1) {
      LeafIffHeld(v, path, param.1);
      assert Leaf(path, param.1) in Elements(Leaves(v));
    }
  }

  // ---------------------------------------------------------------- order

  lemma {:induction false} MembersInOrder(prefix: string, ms: seq<Member>, ns: seq<Member>)
    requires FlattenMembers(prefix, ms).Some?
    ensures FlattenMembers(prefix, ms + ns) == Append(FlattenMembers(prefix, ms).value, FlattenMembers(prefix, ns))
    decreases |ms|
  {
    if ms == [] {
      assert ms + ns == ns;
      AppendNothing(FlattenMembers(prefix, ns));
    } else {
      assert (ms + ns)[0] == ms[0] && (ms + ns)[1..] == ms[1..] + ns;
      MembersInOrder(prefix, ms[1..], ns);
      AppendTwice(FlattenMember(prefix, ms[0]).value, FlattenMembers(prefix, ms[1..]).value,
                  FlattenMembers(prefix, ns));
    }
  }

  lemma {:induction false} ItemsInOrder(name: string, xs: seq<Json>, ys: seq<Json>, i: nat)
    requires FlattenItems(name, xs, i).Some?
    ensures FlattenItems(name, xs + ys, i) == Append(FlattenItems(name, xs, i).value, FlattenItems(name, ys, i + |xs|))
    decreases |xs|
  {
    if xs == [] {
      assert xs + ys == ys;
      AppendNothing(FlattenItems(name, ys, i));
    } else {
      assert (xs + ys)[0] == xs[0] && (xs + ys)[1..] == xs[1..] + ys;
      ItemsInOrder(name, xs[1..], ys, i + 1);
      var head := Flatten(name + "[" + Decimal(i) + "]", xs[0]).value;
      AppendTwice(head, FlattenItems(name, xs[1..], i + 1).value, FlattenItems(name, ys, i + |xs|));
    }
  }

  /** Parameters come in the order of members and elements. */
  lemma PrintedInOrder(prefix: string, ms: seq<Member>, ns: seq<Member>)
    requires Flatten(prefix, Object(ms)).Some? && Flatten(prefix, Object(ns)).Some?
    ensures Flatten(prefix, Object(ms + ns)) ==
            Some(Flatten(prefix, Object(ms)).value + Flatten(prefix, Object(ns)).value)
  {
    MembersInOrder(prefix, ms, ns);
  }

  /** An example with an object, an array and a scalar in each other. */
  lemma Example()
    ensures
      var v := Object([Member("a", Array([Object([Member("b", Bool(true))])]))]);
      Flatten("filter", v) == Some([("filter[a][0][b]", "true")])
  {
    var inner := [Member("b", Bool(true))];
    var items := [Object(inner)];
    var ms := [Member("a", Array(items))];
    assert inner[1..] == [] && items[1..] == [] && ms[1..] == [];
    var name := "filter" + "[" + "a" + "]";
    assert name + "[" + Decimal(0) + "]" + "[" + "b" + "]" == "filter[a][0][b]";
    var p := ("filter[a][0][b]", "true");
    assert FlattenMember(name + "[" + Decimal(0) + "]", inner[0]) == Some([p]);
    assert [p] + [] == [p];
    assert Flatten(name + "[" + Decimal(0) + "]", items[0]) == Some([p]);
    assert FlattenItems(name, items, 0) == Some([p]);
    assert FlattenMember("filter", ms[0]) == Some([p]);
  }
}
