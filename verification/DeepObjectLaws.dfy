/** What parse_deep_object prints, when it prints at all, and what can be read back from it. */
module DeepObjectLaws {
  import opened Common
  import opened DeepObject

  // ---------------------------------------------------------------- definedness

  /** The value and everything inside it. */
  ghost function Parts(v: Json): set<Json>
    decreases v, 1
  {
    {v} +
    match v
    case Array(items) => ItemParts(items)
    case Object(ms) => MemberParts(ms)
    case _ => {}
  }

  ghost function ItemParts(items: seq<Json>): set<Json>
    decreases items, 0
  {
    if items == [] then {} else Parts(items[0]) + ItemParts(items[1..])
  }

  ghost function MemberParts(ms: seq<Member>): set<Json>
    decreases ms, 0
  {
    if ms == [] then {} else assert ms[0] in ms; Parts(ms[0].value) + MemberParts(ms[1..])
  }

  /** Every element of every array among these values is an object. */
  ghost predicate ArraysHoldObjects(S: set<Json>) {
    forall a, x | a in S && a.Array? && x in a.items :: x.Object?
  }

  /** parse_deep_object returns, rather than panics, exactly on an object all of whose arrays hold only objects. */
  lemma {:induction false} DefinedIff(prefix: string, v: Json)
    ensures Flatten(prefix, v).Some? <==> v.Object? && ArraysHoldObjects(Parts(v))
    decreases v, 1
  {
    if v.Object? {
      MembersDefinedIff(prefix, v.members);
      assert ArraysHoldObjects(Parts(v)) <==> ArraysHoldObjects(MemberParts(v.members));
    }
  }

  lemma {:induction false} ItemsAreParts(items: seq<Json>)
    ensures forall x | x in items :: x in ItemParts(items)
  {
    if items != [] {
      ItemsAreParts(items[1..]);
    }
  }

  lemma {:induction false} MembersDefinedIff(prefix: string, ms: seq<Member>)
    ensures FlattenMembers(prefix, ms).Some? <==> ArraysHoldObjects(MemberParts(ms))
    decreases ms, 0
  {
    if ms != [] {
      assert ms[0] in ms;
      var v := ms[0].value;
      var name := prefix + "[" + ms[0].key + "]";
      match v {
        case Object(_) => DefinedIff(name, v);
        case Array(items) =>
          ItemsDefinedIff(name, items, 0);
          ItemsAreParts(items);
          assert ArraysHoldObjects(Parts(v)) <==>
                 (forall x | x in items :: x.Object?) && ArraysHoldObjects(ItemParts(items));
        case _ =>
      }
      MembersDefinedIff(prefix, ms[1..]);
      assert FlattenMember(prefix, ms[0]).Some? <==> ArraysHoldObjects(Parts(v));
    }
  }

  lemma {:induction false} ItemsDefinedIff(name: string, items: seq<Json>, i: nat)
    ensures FlattenItems(name, items, i).Some? <==>
            (forall x | x in items :: x.Object?) && ArraysHoldObjects(ItemParts(items))
    decreases items, 0
  {
    if items != [] {
      DefinedIff(name + "[" + Decimal(i) + "]", items[0]);
      ItemsDefinedIff(name, items[1..], i + 1);
      assert forall x :: x in items <==> x == items[0] || x in items[1..];
    }
  }

  // ---------------------------------------------------------------- leaves

  datatype Leaf = Leaf(path: seq<string>, text: string)

  function Under(key: string, leaves: seq<Leaf>): seq<Leaf> {
    if leaves == [] then [] else [Leaf([key] + leaves[0].path, leaves[0].text)] + Under(key, leaves[1..])
  }

  /** The scalars in a value, in traversal order, each with the keys and indices that lead to it. */
  function Leaves(v: Json): seq<Leaf>
    decreases v, 1
  {
    match v
    case Array(items) => ItemLeaves(items, 0)
    case Object(ms) => MemberLeaves(ms)
    case _ => [Leaf([], Text(v))]
  }

  function ItemLeaves(items: seq<Json>, i: nat): seq<Leaf>
    decreases items, 0
  {
    if items == [] then [] else Under(Decimal(i), Leaves(items[0])) + ItemLeaves(items[1..], i + 1)
  }

  function MemberLeaves(ms: seq<Member>): seq<Leaf>
    decreases ms, 0
  {
    if ms == [] then [] else assert ms[0] in ms; Under(ms[0].key, Leaves(ms[0].value)) + MemberLeaves(ms[1..])
  }

  function Brackets(path: seq<string>): string {
    if path == [] then "" else "[" + path[0] + "]" + Brackets(path[1..])
  }

  /** A leaf's parameter: the prefix, the bracketed path, the text. */
  function Named(prefix: string, leaves: seq<Leaf>): seq<Param> {
    if leaves == [] then [] else [(prefix + Brackets(leaves[0].path), leaves[0].text)] + Named(prefix, leaves[1..])
  }

  lemma {:induction false} NamedConcat(prefix: string, a: seq<Leaf>, b: seq<Leaf>)
    ensures Named(prefix, a + b) == Named(prefix, a) + Named(prefix, b)
  {
    if a == [] {
      assert a + b == b;
    } else {
      NamedConcat(prefix, a[1..], b);
      assert (a + b)[0] == a[0] && (a + b)[1..] == a[1..] + b;
      var first := [(prefix + Brackets(a[0].path), a[0].text)];
      assert first + (Named(prefix, a[1..]) + Named(prefix, b)) == first + Named(prefix, a[1..]) + Named(prefix, b);
    }
  }

  lemma {:induction false} NamedUnder(prefix: string, key: string, leaves: seq<Leaf>)
    ensures Named(prefix, Under(key, leaves)) == Named(prefix + "[" + key + "]", leaves)
  {
    if leaves != [] {
      NamedUnder(prefix, key, leaves[1..]);
      var path := leaves[0].path;
      assert ([key] + path)[1..] == path;
      assert prefix + ("[" + key + "]" + Brackets(path)) == prefix + "[" + key + "]" + Brackets(path);
      assert Under(key, leaves)[1..] == Under(key, leaves[1..]);
    }
  }

  /** Where it returns, the output lists exactly the scalar leaves in traversal order. */
  lemma {:induction false} LeafCorrespondence(prefix: string, v: Json)
    requires Flatten(prefix, v).Some?
    ensures Flatten(prefix, v).value == Named(prefix, Leaves(v))
    decreases v, 1
  {
    MembersCorrespond(prefix, v.members);
  }

  lemma {:induction false} MembersCorrespond(prefix: string, ms: seq<Member>)
    requires FlattenMembers(prefix, ms).Some?
    ensures FlattenMembers(prefix, ms).value == Named(prefix, MemberLeaves(ms))
    decreases ms, 0
  {
    if ms != [] {
      assert ms[0] in ms;
      var v := ms[0].value;
      var name := prefix + "[" + ms[0].key + "]";
      match v {
        case Object(_) => LeafCorrespondence(name, v);
        case Array(items) => ItemsCorrespond(name, items, 0);
        case _ =>
          assert Leaves(v)[1..] == [];
          assert name + Brackets([]) == name;
          assert Named(name, Leaves(v)) == [(name, Text(v))];
      }
      assert FlattenMember(prefix, ms[0]).value == Named(name, Leaves(v));
      NamedUnder(prefix, ms[0].key, Leaves(v));
      MembersCorrespond(prefix, ms[1..]);
      NamedConcat(prefix, Under(ms[0].key, Leaves(v)), MemberLeaves(ms[1..]));
    }
  }

  lemma {:induction false} ItemsCorrespond(name: string, items: seq<Json>, i: nat)
    requires FlattenItems(name, items, i).Some?
    ensures FlattenItems(name, items, i).value == Named(name, ItemLeaves(items, i))
    decreases items, 0
  {
    if items != [] {
      LeafCorrespondence(name + "[" + Decimal(i) + "]", items[0]);
      NamedUnder(name, Decimal(i), Leaves(items[0]));
      ItemsCorrespond(name, items[1..], i + 1);
      NamedConcat(name, Under(Decimal(i), Leaves(items[0])), ItemLeaves(items[1..], i + 1));
    }
  }

  // ---------------------------------------------------------------- reading names

  /** "][" stands at `i`. */
  predicate BreakAt(s: string, i: nat) {
    i + 1 < |s| && s[i] == ']' && s[i + 1] == '['
  }

  /** split("][") */
  function SplitKey(s: string): (parts: seq<string>)
    ensures |parts| >= 1
  {
    if s == "" then [""]
    else if BreakAt(s, 0) then [""] + SplitKey(s[2..])
    else
      var rest := SplitKey(s[1..]);
      [[s[0]] + rest[0]] + rest[1..]
  }

  /** join("][") */
  function JoinKeys(parts: seq<string>): string
    requires |parts| >= 1
  {
    if |parts| == 1 then parts[0] else parts[0] + "][" + JoinKeys(parts[1..])
  }

  /** A component in which ']' is nowhere followed by '['. */
  predicate Unbroken(key: string) {
    forall i | 0 <= i < |key| :: !BreakAt(key, i)
  }

  predicate Readable(path: seq<string>) {
    forall k | k in path :: Unbroken(k)
  }

  /** Reads "[k1][k2]..." back into components: the outer brackets go, and "][" separates. */
  function ReadPath(s: string): Option<seq<string>> {
    if s == "" then Some([])
    else if |s| >= 2 && s[0] == '[' && s[|s| - 1] == ']' then Some(SplitKey(s[1..|s| - 1]))
    else None
  }

  /** The path with every component cut at "][". */
  function SplitPath(path: seq<string>): seq<string> {
    if path == [] then [] else SplitKey(path[0]) + SplitPath(path[1..])
  }

  lemma {:induction false} BracketsJoin(path: seq<string>)
    requires path != []
    ensures Brackets(path) == "[" + JoinKeys(path) + "]"
  {
    if |path| == 1 {
      assert Brackets(path[1..]) == "";
    } else {
      BracketsJoin(path[1..]);
      assert Brackets(path) == "[" + path[0] + "]" + ("[" + JoinKeys(path[1..]) + "]");
      assert Brackets(path) == "[" + (path[0] + "][" + JoinKeys(path[1..])) + "]";
    }
  }

  lemma DropFront(key: string, rest: string, n: nat)
    requires n <= |key|
    ensures (key + "][" + rest)[n..] == key[n..] + "][" + rest
  {
  }

  lemma BreakInFront(key: string, rest: string)
    requires key != ""
    ensures BreakAt(key + "][" + rest, 0) <==> BreakAt(key, 0)
  {
  }

  lemma FirstOfTwo(c: char, a: seq<string>, b: seq<string>)
    requires |a| >= 1
    ensures [""] + (a + b) == [""] + a + b
    ensures [[c] + (a + b)[0]] + (a + b)[1..] == [[c] + a[0]] + a[1..] + b
  {
    assert (a + b)[1..] == a[1..] + b;
  }

  lemma {:induction false} SplitKeyConcat(key: string, rest: string)
    ensures SplitKey(key + "][" + rest) == SplitKey(key) + SplitKey(rest)
    decreases |key|
  {
    var s := key + "][" + rest;
    if key == "" {
      assert s[2..] == rest;
    } else {
      BreakInFront(key, rest);
      var n := if BreakAt(key, 0) then 2 else 1;
      DropFront(key, rest, n);
      SplitKeyConcat(key[n..], rest);
      FirstOfTwo(key[0], SplitKey(key[n..]), SplitKey(rest));
    }
  }

  lemma {:induction false} SplitJoinKeys(path: seq<string>)
    requires path != []
    ensures SplitKey(JoinKeys(path)) == SplitPath(path)
  {
    if |path| == 1 {
      assert SplitPath(path[1..]) == [];
    } else {
      SplitJoinKeys(path[1..]);
      SplitKeyConcat(path[0], JoinKeys(path[1..]));
    }
  }

  lemma UnbrokenTail(s: string)
    requires s != ""
    ensures Unbroken(s) <==> !BreakAt(s, 0) && Unbroken(s[1..])
  {
    assert forall i | 1 <= i < |s| :: BreakAt(s, i) <==> BreakAt(s[1..], i - 1);
    assert forall i | 0 <= i < |s| - 1 :: BreakAt(s[1..], i) <==> BreakAt(s, i + 1);
  }

  lemma LongerJoin(c: char, rest: seq<string>)
    requires |rest| >= 1
    ensures JoinKeys([[c] + rest[0]] + rest[1..]) == [c] + JoinKeys(rest)
  {
    var parts := [[c] + rest[0]] + rest[1..];
    assert parts[1..] == rest[1..];
    if |rest| > 1 {
      var more := "][" + JoinKeys(rest[1..]);
      assert [c] + (rest[0] + more) == [c] + rest[0] + more;
      assert JoinKeys(rest) == rest[0] + more && JoinKeys(parts) == [c] + rest[0] + more;
    }
  }

  lemma JoinStarts(parts: seq<string>)
    requires |parts| >= 1
    ensures parts[0] <= JoinKeys(parts)
  {
  }

  lemma LongerUnbroken(c: char, piece: string, tail: string)
    requires Unbroken(piece) && piece <= tail && !BreakAt([c] + tail, 0)
    ensures Unbroken([c] + piece)
  {
    assert ([c] + piece)[1..] == piece;
    assert piece != "" ==> piece[0] == tail[0];
    UnbrokenTail([c] + piece);
  }

  lemma LongerPiece(c: char, rest: seq<string>, tail: string)
    requires |rest| >= 1 && Readable(rest) && JoinKeys(rest) == tail && !BreakAt([c] + tail, 0)
    ensures
      var parts := [[c] + rest[0]] + rest[1..];
      Readable(parts) && JoinKeys(parts) == [c] + tail
  {
    assert Unbroken(rest[0]) by {
      assert rest[0] in rest;
    }
    JoinStarts(rest);
    LongerUnbroken(c, rest[0], tail);
    LongerJoin(c, rest);
    forall k | k in rest[1..]
      ensures Unbroken(k)
    {
      assert k in rest;
    }
  }

  /** The pieces of a string are unbroken and join to it. */
  lemma {:induction false} SplitKeyPieces(s: string)
    ensures Readable(SplitKey(s)) && JoinKeys(SplitKey(s)) == s
    decreases |s|
  {
    if s != "" {
      if BreakAt(s, 0) {
        SplitKeyPieces(s[2..]);
        assert SplitKey(s)[1..] == SplitKey(s[2..]);
        assert s == "" + "][" + s[2..];
      } else {
        SplitKeyPieces(s[1..]);
        LongerPiece(s[0], SplitKey(s[1..]), s[1..]);
        assert s == [s[0]] + s[1..];
      }
    }
  }

  /** An unbroken string is its own only piece. */
  lemma {:induction false} SplitKeyIff(s: string)
    ensures Unbroken(s) <==> SplitKey(s) == [s]
    decreases |s|
  {
    if s != "" {
      UnbrokenTail(s);
      if !BreakAt(s, 0) {
        SplitKeyIff(s[1..]);
        assert s == [s[0]] + s[1..];
        if SplitKey(s) == [s] {
          var rest := SplitKey(s[1..]);
          assert SplitKey(s)[0][1..] == rest[0];
          assert rest == [s[1..]];
        }
      }
    }
  }

  lemma {:induction false} SplitPathIff(path: seq<string>)
    ensures |SplitPath(path)| >= |path|
    ensures SplitPath(path) == path <==> Readable(path)
    ensures Readable(SplitPath(path))
  {
    if path != [] {
      SplitKeyPieces(path[0]);
      SplitKeyIff(path[0]);
      SplitPathIff(path[1..]);
      assert path == [path[0]] + path[1..];
      assert Readable(path) <==> Unbroken(path[0]) && Readable(path[1..]) by {
        assert forall k :: k in path <==> k == path[0] || k in path[1..];
      }
      if SplitPath(path) == path {
        assert |SplitKey(path[0])| == 1;
        assert SplitPath(path)[0] == SplitKey(path[0])[0];
        assert SplitPath(path)[1..] == SplitPath(path[1..]);
      }
    }
  }

  /** Every printed path reads back, as the path cut at "]["; so as itself exactly when no component contains that. */
  lemma ReadPathRoundTrip(path: seq<string>)
    ensures ReadPath(Brackets(path)) == Some(SplitPath(path))
    ensures ReadPath(Brackets(path)) == Some(path) <==> Readable(path)
  {
    SplitPathIff(path);
    if path != [] {
      BracketsJoin(path);
      SplitJoinKeys(path);
      assert Brackets(path)[1..|Brackets(path)| - 1] == JoinKeys(path);
    }
  }

  lemma {:induction false} BracketsConcat(a: seq<string>, b: seq<string>)
    ensures Brackets(a + b) == Brackets(a) + Brackets(b)
  {
    if a == [] {
      assert a + b == b;
    } else {
      BracketsConcat(a[1..], b);
      assert (a + b)[1..] == a[1..] + b;
    }
  }

  lemma {:induction false} SplitPathBrackets(path: seq<string>)
    ensures Brackets(SplitPath(path)) == Brackets(path)
  {
    if path != [] {
      SplitPathBrackets(path[1..]);
      SplitKeyPieces(path[0]);
      BracketsJoin(SplitKey(path[0]));
      BracketsConcat(SplitKey(path[0]), SplitPath(path[1..]));
    }
  }

  /** Two paths print the same name exactly when they are the same once cut at "][". */
  lemma SameNameIff(prefix: string, p: seq<string>, q: seq<string>)
    ensures prefix + Brackets(p) == prefix + Brackets(q) <==> SplitPath(p) == SplitPath(q)
  {
    if prefix + Brackets(p) == prefix + Brackets(q) {
      assert Brackets(p) == (prefix + Brackets(p))[|prefix|..] == Brackets(q);
      ReadPathRoundTrip(p);
      ReadPathRoundTrip(q);
    } else if SplitPath(p) == SplitPath(q) {
      SplitPathBrackets(p);
      SplitPathBrackets(q);
    }
  }

  // ---------------------------------------------------------------- erasure

  /**
   What a receiver can know of a value: arrays are index-keyed objects, scalars are text, empty containers are gone.
   */
  datatype Tree = Value(text: string) | Node(children: map<string, Tree>)

  predicate Empty(v: Json) {
    Leaves(v) == []
  }

  function Erase(v: Json): Tree
    decreases v, 1
  {
    match v
    case Array(items) => Node(EraseItems(items, 0))
    case Object(ms) => Node(EraseMembers(ms))
    case _ => Value(Text(v))
  }

  function EraseItems(items: seq<Json>, i: nat): map<string, Tree>
    decreases items, 0
  {
    if items == [] then map[]
    else
      var rest := EraseItems(items[1..], i + 1);
      if Empty(items[0]) then rest else rest[Decimal(i) := Erase(items[0])]
  }

  function EraseMembers(ms: seq<Member>): map<string, Tree>
    decreases ms, 0
  {
    if ms == [] then map[]
    else
      assert ms[0] in ms;
      var rest := EraseMembers(ms[1..]);
      if Empty(ms[0].value) then rest else rest[ms[0].key := Erase(ms[0].value)]
  }

  /** As in any serde_json map, the keys of an object are unique. */
  predicate UniqueKeys(v: Json) {
    match v
    case Array(items) => forall x | x in items :: UniqueKeys(x)
    case Object(ms) =>
      && (forall m | m in ms :: UniqueKeys(m.value))
      && (forall j, k | 0 <= j < k < |ms| :: ms[j].key != ms[k].key)
    case _ => true
  }

  /** Puts one leaf into a tree. */
  function Insert(t: Tree, path: seq<string>, text: string): Tree
    decreases path
  {
    if path == [] then Value(text)
    else
      var ch := if t.Node? then t.children else map[];
      var sub := if path[0] in ch then ch[path[0]] else Node(map[]);
      Node(ch[path[0] := Insert(sub, path[1..], text)])
  }

  function InsertAll(t: Tree, leaves: seq<Leaf>): Tree
    decreases |leaves|
  {
    if leaves == [] then t else InsertAll(Insert(t, leaves[0].path, leaves[0].text), leaves[1..])
  }

  lemma {:induction false} InsertAllConcat(t: Tree, a: seq<Leaf>, b: seq<Leaf>)
    ensures InsertAll(t, a + b) == InsertAll(InsertAll(t, a), b)
    decreases |a|
  {
    if a == [] {
      assert a + b == b;
    } else {
      InsertAllConcat(Insert(t, a[0].path, a[0].text), a[1..], b);
      assert (a + b)[1..] == a[1..] + b;
    }
  }

  /** Leaves under one key all land in the subtree at that key. */
  lemma {:induction false} InsertAllUnder(ch: map<string, Tree>, key: string, leaves: seq<Leaf>)
    requires key in ch
    ensures InsertAll(Node(ch), Under(key, leaves)) == Node(ch[key := InsertAll(ch[key], leaves)])
    decreases |leaves|
  {
    if leaves == [] {
      assert ch[key := ch[key]] == ch;
    } else {
      var sub := Insert(ch[key], leaves[0].path, leaves[0].text);
      assert ([key] + leaves[0].path)[1..] == leaves[0].path;
      assert Under(key, leaves)[1..] == Under(key, leaves[1..]);
      InsertAllUnder(ch[key := sub], key, leaves[1..]);
      assert ch[key := sub][key := InsertAll(sub, leaves[1..])] == ch[key := InsertAll(sub, leaves[1..])];
    }
  }

  lemma InsertAllFresh(ch: map<string, Tree>, key: string, leaves: seq<Leaf>)
    requires key !in ch && leaves != []
    ensures InsertAll(Node(ch), Under(key, leaves)) == Node(ch[key := InsertAll(Node(map[]), leaves)])
  {
    var sub := Insert(Node(map[]), leaves[0].path, leaves[0].text);
    assert ([key] + leaves[0].path)[1..] == leaves[0].path;
    assert Under(key, leaves)[1..] == Under(key, leaves[1..]);
    InsertAllUnder(ch[key := sub], key, leaves[1..]);
    assert ch[key := sub][key := InsertAll(sub, leaves[1..])] == ch[key := InsertAll(sub, leaves[1..])];
  }

  lemma {:induction false} DecimalNonempty(n: nat)
    ensures |Decimal(n)| > 0
  {
    if n >= 10 {
      DecimalNonempty(n / 10);
    }
  }

  lemma {:induction false} DecimalInjective(m: nat, n: nat)
    ensures |Decimal(n)| > 0 && ']' !in Decimal(n)
    ensures Decimal(m) == Decimal(n) ==> m == n
    decreases n
  {
    if n >= 10 {
      DecimalInjective(m / 10, n / 10);
    }
    if m >= 10 {
      DecimalNonempty(m / 10);
    }
    if Decimal(m) == Decimal(n) {
      if m >= 10 && n >= 10 {
        assert Decimal(m)[..|Decimal(m)| - 1] == Decimal(m / 10);
        assert Decimal(n)[..|Decimal(n)| - 1] == Decimal(n / 10);
        assert Decimal(m)[|Decimal(m)| - 1] == "0123456789"[m % 10];
        assert Decimal(n)[|Decimal(n)| - 1] == "0123456789"[n % 10];
      }
    }
  }

  /** Inserting a value's leaves into an empty tree gives its erasure. */
  lemma {:induction false} LeavesRebuild(v: Json)
    requires UniqueKeys(v) && (v.Object? || !Empty(v))
    ensures InsertAll(Node(map[]), Leaves(v)) == Erase(v)
    decreases v, 1
  {
    match v {
      case Array(items) => ItemLeavesRebuild(map[], items, 0);
      case Object(ms) => MemberLeavesRebuild(map[], ms);
      case _ =>
        assert Leaves(v)[1..] == [];
    }
  }

  lemma UniqueKeysTail(ms: seq<Member>)
    requires ms != [] && UniqueKeys(Object(ms))
    ensures UniqueKeys(ms[0].value) && UniqueKeys(Object(ms[1..]))
    ensures forall m | m in ms[1..] :: m in ms && m.key != ms[0].key
  {
    assert ms[0] in ms;
    var tail := ms[1..];
    assert forall k | 0 <= k < |tail| :: tail[k] == ms[k + 1];
  }

  /** The children after the leaves of one more value have gone in under a new key. */
  function Grown(ch: map<string, Tree>, key: string, v: Json): map<string, Tree> {
    if Empty(v) then ch else ch[key := Erase(v)]
  }

  lemma InsertValue(ch: map<string, Tree>, key: string, v: Json, rest: seq<Leaf>)
    requires key !in ch && (Empty(v) || InsertAll(Node(map[]), Leaves(v)) == Erase(v))
    ensures InsertAll(Node(ch), Under(key, Leaves(v)) + rest) == InsertAll(Node(Grown(ch, key, v)), rest)
  {
    InsertAllConcat(Node(ch), Under(key, Leaves(v)), rest);
    if !Empty(v) {
      InsertAllFresh(ch, key, Leaves(v));
    }
  }

  lemma GrownFirst(ch: map<string, Tree>, key: string, v: Json, rest: map<string, Tree>)
    requires key !in rest
    ensures Grown(ch, key, v) + rest == ch + Grown(rest, key, v)
  {
  }

  lemma {:induction false} EraseMembersKeys(ms: seq<Member>)
    ensures forall k | k in EraseMembers(ms) :: exists m :: m in ms && m.key == k
  {
    if ms != [] {
      EraseMembersKeys(ms[1..]);
      assert ms[0] in ms;
      forall k | k in EraseMembers(ms)
        ensures exists m :: m in ms && m.key == k
      {
        if k in EraseMembers(ms[1..]) {
          var m :| m in ms[1..] && m.key == k;
          assert m in ms;
        }
      }
    }
  }

  lemma {:induction false} MemberLeavesRebuild(ch: map<string, Tree>, ms: seq<Member>)
    requires UniqueKeys(Object(ms)) && forall m | m in ms :: m.key !in ch
    ensures InsertAll(Node(ch), MemberLeaves(ms)) == Node(ch + EraseMembers(ms))
    decreases ms, 0
  {
    if ms == [] {
      assert ch + map[] == ch;
    } else {
      assert ms[0] in ms;
      UniqueKeysTail(ms);
      var key, v, tail := ms[0].key, ms[0].value, ms[1..];
      if !Empty(v) {
        LeavesRebuild(v);
      }
      InsertValue(ch, key, v, MemberLeaves(tail));
      MemberLeavesRebuild(Grown(ch, key, v), tail);
      EraseMembersKeys(tail);
      GrownFirst(ch, key, v, EraseMembers(tail));
    }
  }

  lemma {:induction false} EraseItemsKeys(items: seq<Json>, i: nat, j: nat)
    requires j < i
    ensures Decimal(j) !in EraseItems(items, i)
    decreases items
  {
    if items != [] {
      EraseItemsKeys(items[1..], i + 1, j);
      DecimalInjective(i, j);
    }
  }

  lemma {:induction false} ItemLeavesRebuild(ch: map<string, Tree>, items: seq<Json>, i: nat)
    requires (forall x | x in items :: UniqueKeys(x)) && forall j: nat | i <= j :: Decimal(j) !in ch
    ensures InsertAll(Node(ch), ItemLeaves(items, i)) == Node(ch + EraseItems(items, i))
    decreases items, 0
  {
    if items == [] {
      assert ch + map[] == ch;
    } else {
      var v, tail := items[0], items[1..];
      if !Empty(v) {
        LeavesRebuild(v);
      }
      InsertValue(ch, Decimal(i), v, ItemLeaves(tail, i + 1));
      forall j: nat | i + 1 <= j
        ensures Decimal(j) !in Grown(ch, Decimal(i), v)
      {
        DecimalInjective(i, j);
      }
      ItemLeavesRebuild(Grown(ch, Decimal(i), v), tail, i + 1);
      EraseItemsKeys(tail, i + 1, i);
      GrownFirst(ch, Decimal(i), v, EraseItems(tail, i + 1));
    }
  }
}
