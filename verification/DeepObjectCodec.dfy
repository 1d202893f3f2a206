/** A decoder for the printed parameters, and what two values that print alike have in common. */
module DeepObjectCodec {
  import opened Common
  import opened DeepObject
  import opened DeepObjectLaws

  // ---------------------------------------------------------------- the decoder

  function ReadLeaves(prefix: string, ps: seq<Param>): Option<seq<Leaf>> {
    if ps == [] then Some([])
    else
      var name := ps[0].0;
      var path := if prefix <= name then ReadPath(name[|prefix|..]) else None;
      var rest := ReadLeaves(prefix, ps[1..]);
      if path.None? || rest.None? then None else Some([Leaf(path.value, ps[0].1)] + rest.value)
  }

  function Decode(prefix: string, ps: seq<Param>): Option<Tree> {
    var leaves := ReadLeaves(prefix, ps);
    if leaves.None? then None else Some(InsertAll(Node(map[]), leaves.value))
  }

  predicate AllReadable(leaves: seq<Leaf>) {
    forall l | l in leaves :: Readable(l.path)
  }

  /** The leaf with its path cut at "][". */
  function Cut(l: Leaf): Leaf {
    Leaf(SplitPath(l.path), l.text)
  }

  function CutAll(leaves: seq<Leaf>): seq<Leaf> {
    if leaves == [] then [] else [Cut(leaves[0])] + CutAll(leaves[1..])
  }

  lemma {:induction false} ReadLeavesRoundTrip(prefix: string, leaves: seq<Leaf>)
    ensures ReadLeaves(prefix, Named(prefix, leaves)) == Some(CutAll(leaves))
  {
    if leaves != [] {
      var name := prefix + Brackets(leaves[0].path);
      assert name[|prefix|..] == Brackets(leaves[0].path);
      ReadPathRoundTrip(leaves[0].path);
      ReadLeavesRoundTrip(prefix, leaves[1..]);
    }
  }

  lemma {:induction false} CutReadable(leaves: seq<Leaf>)
    ensures AllReadable(CutAll(leaves))
    ensures AllReadable(leaves) ==> CutAll(leaves) == leaves
  {
    if leaves != [] {
      CutReadable(leaves[1..]);
      SplitPathIff(leaves[0].path);
      assert leaves[0] in leaves;
      assert leaves == [leaves[0]] + leaves[1..];
    }
  }

  // ---------------------------------------------------------------- trees and their leaves

  /** The leaves of a tree, unordered. */
  ghost function TreeLeaves(t: Tree): set<Leaf>
    decreases t
  {
    match t
    case Value(text) => {Leaf([], text)}
    case Node(ch) => set k, l | k in ch && l in TreeLeaves(ch[k]) :: Leaf([k] + l.path, l.text)
  }

  /** No subtree is without leaves. */
  ghost predicate Normal(t: Tree)
    decreases t
  {
    t.Node? ==> forall k | k in t.children :: Normal(t.children[k]) && TreeLeaves(t.children[k]) != {}
  }

  function Elements(leaves: seq<Leaf>): set<Leaf> {
    set l | l in leaves
  }

  lemma {:induction false} UnderElements(key: string, leaves: seq<Leaf>)
    ensures Elements(Under(key, leaves)) == set l | l in Elements(leaves) :: Leaf([key] + l.path, l.text)
  {
    if leaves != [] {
      UnderElements(key, leaves[1..]);
      assert Under(key, leaves) == [Leaf([key] + leaves[0].path, leaves[0].text)] + Under(key, leaves[1..]);
      assert Elements(leaves) == {leaves[0]} + Elements(leaves[1..]);
      assert Elements(Under(key, leaves)) == {Leaf([key] + leaves[0].path, leaves[0].text)} +
          Elements(Under(key, leaves[1..]));
    }
  }

  ghost predicate Faithful(t: Tree, leaves: seq<Leaf>) {
    Normal(t) && TreeLeaves(t) == Elements(leaves)
  }

  /** A new child brings its leaves, under its key. */
  lemma NewChildLeaves(ch: map<string, Tree>, key: string, sub: Tree)
    requires key !in ch
    ensures TreeLeaves(Node(ch[key := sub])) ==
            TreeLeaves(Node(ch)) + set m | m in TreeLeaves(sub) :: Leaf([key] + m.path, m.text)
  {
    var ch' := ch[key := sub];
    forall k, m | k in ch && m in TreeLeaves(ch[k])
      ensures k in ch' && m in TreeLeaves(ch'[k])
    {
    }
    forall m | m in TreeLeaves(sub)
      ensures key in ch' && m in TreeLeaves(ch'[key])
    {
    }
  }

  lemma GrownFaithful(ch: map<string, Tree>, key: string, v: Json, rest: seq<Leaf>)
    requires key !in ch && Faithful(Node(ch), rest) && Faithful(Erase(v), Leaves(v))
    ensures Faithful(Node(Grown(ch, key, v)), Under(key, Leaves(v)) + rest)
  {
    UnderElements(key, Leaves(v));
    var all := Under(key, Leaves(v)) + rest;
    assert Elements(all) == Elements(Under(key, Leaves(v))) + Elements(rest);
    if Empty(v) {
      assert all == rest;
    } else {
      assert Leaves(v)[0] in Elements(Leaves(v));
      NewChildLeaves(ch, key, Erase(v));
    }
  }

  /** A value's erasure has exactly the value's leaves. */
  lemma {:induction false} EraseFaithful(v: Json)
    requires UniqueKeys(v)
    ensures Faithful(Erase(v), Leaves(v))
    decreases v, 1
  {
    match v
    case Array(items) => EraseItemsFaithful(items, 0);
    case Object(ms) => EraseMembersFaithful(ms);
    case _ =>
  }

  lemma {:induction false} EraseItemsFaithful(items: seq<Json>, i: nat)
    requires forall x | x in items :: UniqueKeys(x)
    ensures Faithful(Node(EraseItems(items, i)), ItemLeaves(items, i))
    decreases items, 0
  {
    if items != [] {
      EraseFaithful(items[0]);
      EraseItemsFaithful(items[1..], i + 1);
      EraseItemsKeys(items[1..], i + 1, i);
      GrownFaithful(EraseItems(items[1..], i + 1), Decimal(i), items[0], ItemLeaves(items[1..], i + 1));
    }
  }

  lemma {:induction false} EraseMembersFaithful(ms: seq<Member>)
    requires UniqueKeys(Object(ms))
    ensures Faithful(Node(EraseMembers(ms)), MemberLeaves(ms))
    decreases ms, 0
  {
    if ms != [] {
      assert ms[0] in ms;
      UniqueKeysTail(ms);
      EraseFaithful(ms[0].value);
      EraseMembersFaithful(ms[1..]);
      EraseMembersKeys(ms[1..]);
      GrownFaithful(EraseMembers(ms[1..]), ms[0].key, ms[0].value, MemberLeaves(ms[1..]));
    }
  }

  // ---------------------------------------------------------------- the round trip

  /** Replacing one child changes the leaves below its key only. */
  lemma ReplaceChild(ch: map<string, Tree>, key: string, sub: Tree, l: Leaf)
    requires l in TreeLeaves(Node(ch[key := sub]))
    ensures l in TreeLeaves(Node(ch)) || (l.path != [] && l.path[0] == key
                                              && Leaf(l.path[1..], l.text) in TreeLeaves(sub))
  {
    var ch' := ch[key := sub];
    var k, m :| k in ch' && m in TreeLeaves(ch'[k]) && l == Leaf([k] + m.path, m.text);
    if k == key {
      assert l.path[1..] == m.path;
    } else {
      assert k in ch && m in TreeLeaves(ch[k]);
    }
  }

  lemma ChildLeaf(ch: map<string, Tree>, l: Leaf)
    requires l.path != [] && l.path[0] in ch && Leaf(l.path[1..], l.text) in TreeLeaves(ch[l.path[0]])
    ensures l in TreeLeaves(Node(ch))
  {
    var m := Leaf(l.path[1..], l.text);
    assert l == Leaf([l.path[0]] + m.path, m.text);
  }

  lemma {:induction false} InsertAddsOneLeaf(t: Tree, path: seq<string>, text: string)
    ensures TreeLeaves(Insert(t, path, text)) <= TreeLeaves(t) + {Leaf(path, text)}
    decreases path
  {
    if path != [] {
      var ch := if t.Node? then t.children else map[];
      var sub := if path[0] in ch then ch[path[0]] else Node(map[]);
      InsertAddsOneLeaf(sub, path[1..], text);
      forall l | l in TreeLeaves(Insert(t, path, text))
        ensures l in TreeLeaves(t) || l == Leaf(path, text)
      {
        ReplaceChild(ch, path[0], Insert(sub, path[1..], text), l);
        if l !in TreeLeaves(Node(ch)) {
          if Leaf(l.path[1..], l.text) == Leaf(path[1..], text) {
            assert l.path == [path[0]] + path[1..] == path;
          } else {
            ChildLeaf(ch, l);
          }
        }
      }
    }
  }

  lemma {:induction false} InsertAllAddsLeaves(t: Tree, leaves: seq<Leaf>)
    ensures TreeLeaves(InsertAll(t, leaves)) <= TreeLeaves(t) + Elements(leaves)
    decreases |leaves|
  {
    if leaves != [] {
      InsertAddsOneLeaf(t, leaves[0].path, leaves[0].text);
      InsertAllAddsLeaves(Insert(t, leaves[0].path, leaves[0].text), leaves[1..]);
    }
  }

  /** What was printed decodes to the value's erasure exactly when no key on the way to a scalar contains "][". */
  lemma RoundTripIff(prefix: string, v: Json)
    requires UniqueKeys(v) && Flatten(prefix, v).Some?
    ensures Decode(prefix, Flatten(prefix, v).value) == Some(Erase(v)) <==> AllReadable(Leaves(v))
  {
    LeafCorrespondence(prefix, v);
    ReadLeavesRoundTrip(prefix, Leaves(v));
    CutReadable(Leaves(v));
    if AllReadable(Leaves(v)) {
      LeavesRebuild(v);
    }
    if Decode(prefix, Flatten(prefix, v).value) == Some(Erase(v)) {
      var leaves := CutAll(Leaves(v));
      InsertAllAddsLeaves(Node(map[]), leaves);
      EraseFaithful(v);
      assert forall l | l in Leaves(v) :: l in Elements(Leaves(v)) && l in Elements(leaves);
    }
  }

  lemma SameKeys(a: map<string, Tree>, b: map<string, Tree>, k: string)
    requires k in a && TreeLeaves(a[k]) != {} && TreeLeaves(Node(a)) <= TreeLeaves(Node(b))
    ensures k in b
  {
    var m :| m in TreeLeaves(a[k]);
    var l := Leaf([k] + m.path, m.text);
    assert l in TreeLeaves(Node(a));
    var k', m' :| k' in b && m' in TreeLeaves(b[k']) && l == Leaf([k'] + m'.path, m'.text);
    assert l.path[0] == k == k';
  }

  lemma SubtreeLeaves(a: map<string, Tree>, b: map<string, Tree>, k: string)
    requires k in a && k in b && TreeLeaves(Node(a)) <= TreeLeaves(Node(b))
    ensures TreeLeaves(a[k]) <= TreeLeaves(b[k])
  {
    forall m | m in TreeLeaves(a[k])
      ensures m in TreeLeaves(b[k])
    {
      var l := Leaf([k] + m.path, m.text);
      assert l in TreeLeaves(Node(a));
      var k', m' :| k' in b && m' in TreeLeaves(b[k']) && l == Leaf([k'] + m'.path, m'.text);
      assert l.path[0] == k == k';
      assert l.path[1..] == m.path == m'.path;
    }
  }

  /** A normal tree is determined by its leaves. */
  lemma {:induction false} Determined(t: Tree, u: Tree)
    requires Normal(t) && Normal(u) && TreeLeaves(t) == TreeLeaves(u)
    requires TreeLeaves(t) == {} ==> t.Node? && u.Node?
    ensures t == u
    decreases t
  {
    if t.Value? || u.Value? {
      var l := Leaf([], if t.Value? then t.text else u.text);
      assert l in TreeLeaves(t) && l in TreeLeaves(u);
    } else {
      forall k | k in t.children
        ensures k in u.children && t.children[k] == u.children[k]
      {
        SameKeys(t.children, u.children, k);
        SubtreeLeaves(t.children, u.children, k);
        SubtreeLeaves(u.children, t.children, k);
        Determined(t.children[k], u.children[k]);
      }
      forall k | k in u.children
        ensures k in t.children
      {
        SameKeys(u.children, t.children, k);
      }
      assert t.children == u.children;
    }
  }

  // ---------------------------------------------------------------- when two values print alike

  function ParamSet(ps: seq<Param>): set<Param> {
    set p | p in ps
  }

  /** The printed parameters as a name-to-text relation. */
  function Params(prefix: string, v: Json): set<Param>
    requires Flatten(prefix, v).Some?
  {
    ParamSet(Flatten(prefix, v).value)
  }

  function ParamsOf(prefix: string, leaves: set<Leaf>): set<Param> {
    set l | l in leaves :: (prefix + Brackets(l.path), l.text)
  }

  lemma {:induction false} NamedElements(prefix: string, leaves: seq<Leaf>)
    ensures ParamSet(Named(prefix, leaves)) == ParamsOf(prefix, Elements(leaves))
  {
    if leaves != [] {
      NamedElements(prefix, leaves[1..]);
      assert Elements(leaves) == {leaves[0]} + Elements(leaves[1..]);
      var p := (prefix + Brackets(leaves[0].path), leaves[0].text);
      assert Named(prefix, leaves) == [p] + Named(prefix, leaves[1..]);
      assert ParamSet(Named(prefix, leaves)) == {p} + ParamSet(Named(prefix, leaves[1..]));
    }
  }

  function CutSet(leaves: set<Leaf>): set<Leaf> {
    set l | l in leaves :: Cut(l)
  }

  lemma CutElements(leaves: seq<Leaf>)
    requires AllReadable(leaves)
    ensures CutSet(Elements(leaves)) == Elements(leaves)
  {
    forall l | l in leaves
      ensures Cut(l) == l
    {
      SplitPathIff(l.path);
    }
  }

  /** Printing loses where in a path "][" stood, and nothing else. */
  lemma PrintedWithinIff(prefix: string, A: set<Leaf>, B: set<Leaf>)
    ensures ParamsOf(prefix, A) <= ParamsOf(prefix, B) <==> CutSet(A) <= CutSet(B)
  {
    forall l: Leaf, m: Leaf
      ensures prefix + Brackets(l.path) == prefix + Brackets(m.path) <==> Cut(l).path == Cut(m).path
    {
      SameNameIff(prefix, l.path, m.path);
    }
    if ParamsOf(prefix, A) <= ParamsOf(prefix, B) {
      forall l | l in A
        ensures Cut(l) in CutSet(B)
      {
        assert (prefix + Brackets(l.path), l.text) in ParamsOf(prefix, A);
      }
    }
    if CutSet(A) <= CutSet(B) {
      forall l | l in A
        ensures (prefix + Brackets(l.path), l.text) in ParamsOf(prefix, B)
      {
        assert Cut(l) in CutSet(A);
      }
    }
  }

  /**
   Any two values print the same parameters, in whatever order, exactly when their leaves cut at "][" are the same.
   */
  lemma PrintSameIff(prefix: string, v: Json, w: Json)
    requires Flatten(prefix, v).Some? && Flatten(prefix, w).Some?
    ensures Params(prefix, v) == Params(prefix, w) <==> CutSet(Elements(Leaves(v))) == CutSet(Elements(Leaves(w)))
  {
    LeafCorrespondence(prefix, v);
    LeafCorrespondence(prefix, w);
    NamedElements(prefix, Leaves(v));
    NamedElements(prefix, Leaves(w));
    PrintedWithinIff(prefix, Elements(Leaves(v)), Elements(Leaves(w)));
    PrintedWithinIff(prefix, Elements(Leaves(w)), Elements(Leaves(v)));
  }

  /** Where no key on the way to a scalar contains "][", values print alike exactly when their erasures are equal. */
  lemma PrintAlikeIff(prefix: string, v: Json, w: Json)
    requires UniqueKeys(v) && UniqueKeys(w) && AllReadable(Leaves(v)) && AllReadable(Leaves(w))
    requires Flatten(prefix, v).Some? && Flatten(prefix, w).Some?
    ensures Params(prefix, v) == Params(prefix, w) <==> Erase(v) == Erase(w)
  {
    PrintSameIff(prefix, v, w);
    CutElements(Leaves(v));
    CutElements(Leaves(w));
    EraseFaithful(v);
    EraseFaithful(w);
    if Params(prefix, v) == Params(prefix, w) {
      Determined(Erase(v), Erase(w));
    }
  }

  predicate IsScalar(v: Json) {
    !v.Array? && !v.Object?
  }

  /** A value with one scalar, at the end of `path`. */
  function Nested(path: seq<string>, x: Json): Json {
    if path == [] then x else Object([Member(path[0], Nested(path[1..], x))])
  }

  lemma {:induction false} NestedLeaves(path: seq<string>, x: Json)
    requires IsScalar(x)
    ensures UniqueKeys(Nested(path, x)) && Leaves(Nested(path, x)) == [Leaf(path, Text(x))]
  {
    if path != [] {
      NestedLeaves(path[1..], x);
      var ms := [Member(path[0], Nested(path[1..], x))];
      assert ms[1..] == [];
      assert [path[0]] + path[1..] == path;
      assert Under(path[0], Leaves(ms[0].value)) == [Leaf(path, Text(x))];
      assert MemberLeaves(ms) == [Leaf(path, Text(x))] + [];
    }
  }

  lemma {:induction false} NestedPrints(prefix: string, path: seq<string>, x: Json)
    requires path != [] && IsScalar(x)
    ensures Flatten(prefix, Nested(path, x)).Some?
    decreases |path|
  {
    var ms := [Member(path[0], Nested(path[1..], x))];
    assert ms[1..] == [];
    if |path| > 1 {
      NestedPrints(prefix + "[" + path[0] + "]", path[1..], x);
    }
    assert FlattenMember(prefix, ms[0]).Some?;
    assert FlattenMembers(prefix, ms[1..]) == Some([]);
  }

  /** A scalar is printed as its JSON literal, but for a string, which is printed as it is. */
  lemma ScalarText(prefix: string, path: seq<string>, x: Json)
    requires path != [] && IsScalar(x)
    ensures Flatten(prefix, Nested(path, x)).Some?
    ensures
      var params := Flatten(prefix, Nested(path, x)).value;
      && |params| == 1 && params[0].0 == prefix + Brackets(path)
      && (x == Null ==> params[0].1 == "null")
      && (x == Bool(true) ==> params[0].1 == "true")
      && (x == Bool(false) ==> params[0].1 == "false")
      && (x.Number? ==> params[0].1 == x.text)
      && (x.Str? ==> params[0].1 == x.s)
  {
    NestedPrints(prefix, path, x);
    NestedLeaves(path, x);
    LeafCorrespondence(prefix, Nested(path, x));
    assert [Leaf(path, Text(x))][1..] == [];
  }

  /** Cutting a path at "][" gives another value that prints the same. */
  lemma CutCollides(prefix: string, path: seq<string>, x: Json)
    requires path != [] && !Readable(path) && IsScalar(x)
    ensures
      var v, w := Nested(path, x), Nested(SplitPath(path), x);
      && UniqueKeys(w) && AllReadable(Leaves(w)) && Flatten(prefix, v).Some? && Flatten(prefix, w).Some?
      && Params(prefix, w) == Params(prefix, v) && Erase(w) != Erase(v)
  {
    var cut := SplitPath(path);
    var v, w := Nested(path, x), Nested(cut, x);
    SplitPathIff(path);
    SplitPathIff(cut);
    NestedLeaves(path, x);
    NestedLeaves(cut, x);
    NestedPrints(prefix, path, x);
    NestedPrints(prefix, cut, x);
    assert Elements([Leaf(path, Text(x))]) == {Leaf(path, Text(x))};
    assert Elements([Leaf(cut, Text(x))]) == {Leaf(cut, Text(x))};
    PrintSameIff(prefix, v, w);
    EraseFaithful(v);
    EraseFaithful(w);
    assert Leaf(cut, Text(x)) in TreeLeaves(Erase(w)) && Leaf(cut, Text(x)) !in TreeLeaves(Erase(v));
  }

  /**
   The condition is exact, whoever reads the names: a one-scalar value is the only one with such keys to print
   what it prints exactly when its own path is free of "][".
   */
  lemma CollidesIff(prefix: string, path: seq<string>, x: Json)
    requires path != [] && IsScalar(x)
    ensures Flatten(prefix, Nested(path, x)).Some?
    ensures Readable(path) <==>
            forall w :: UniqueKeys(w) && AllReadable(Leaves(w)) && Flatten(prefix, w).Some?
                        && Params(prefix, w) == Params(prefix, Nested(path, x)) ==>
                          Erase(w) == Erase(Nested(path, x))
  {
    NestedLeaves(path, x);
    NestedPrints(prefix, path, x);
    if Readable(path) {
      forall w | UniqueKeys(w) && AllReadable(Leaves(w)) && Flatten(prefix, w).Some?
                 && Params(prefix, w) == Params(prefix, Nested(path, x))
        ensures Erase(w) == Erase(Nested(path, x))
      {
        PrintAlikeIff(prefix, w, Nested(path, x));
      }
    } else {
      CutCollides(prefix, path, x);
    }
  }

  // ---------------------------------------------------------------- distinct names

  ghost predicate DistinctPaths(leaves: seq<Leaf>) {
    forall i, j | 0 <= i < j < |leaves| :: leaves[i].path != leaves[j].path
  }

  lemma {:induction false} NamedAt(prefix: string, leaves: seq<Leaf>, i: nat)
    requires i < |Named(prefix, leaves)|
    ensures |Named(prefix, leaves)| == |leaves|
    ensures Named(prefix, leaves)[i] == (prefix + Brackets(leaves[i].path), leaves[i].text)
    decreases |leaves|
  {
    if |leaves| > 1 {
      NamedAt(prefix, leaves[1..], if i == 0 then 0 else i - 1);
    }
  }

  lemma {:induction false} UnderAt(key: string, leaves: seq<Leaf>)
    ensures |Under(key, leaves)| == |leaves|
    ensures forall i | 0 <= i < |leaves| :: Under(key, leaves)[i].path == [key] + leaves[i].path
  {
    if leaves != [] {
      UnderAt(key, leaves[1..]);
    }
  }

  lemma DistinctConcat(key: string, leaves: seq<Leaf>, rest: seq<Leaf>)
    requires DistinctPaths(leaves) && DistinctPaths(rest)
    requires forall l | l in rest :: l.path != [] && l.path[0] != key
    ensures DistinctPaths(Under(key, leaves) + rest)
  {
    UnderAt(key, leaves);
    var all := Under(key, leaves) + rest;
    forall i, j | 0 <= i < j < |all|
      ensures all[i].path != all[j].path
    {
      if j < |leaves| {
        assert all[i].path[1..] == leaves[i].path && all[j].path[1..] == leaves[j].path;
      } else if i < |leaves| {
        assert all[i].path[0] == key;
        assert all[j] in rest;
      }
    }
  }

  lemma {:induction false} PathsDistinct(v: Json)
    requires UniqueKeys(v)
    ensures DistinctPaths(Leaves(v))
    decreases v, 1
  {
    match v
    case Array(items) => ItemPathsDistinct(items, 0);
    case Object(ms) => MemberPathsDistinct(ms);
    case _ =>
  }

  ghost predicate IndexedFrom(l: Leaf, i: nat) {
    l.path != [] && exists j: nat :: i <= j && l.path[0] == Decimal(j)
  }

  lemma {:induction false} ItemPathsDistinct(items: seq<Json>, i: nat)
    requires forall x | x in items :: UniqueKeys(x)
    ensures DistinctPaths(ItemLeaves(items, i))
    ensures forall l | l in ItemLeaves(items, i) :: IndexedFrom(l, i)
    decreases items, 0
  {
    if items != [] {
      PathsDistinct(items[0]);
      ItemPathsDistinct(items[1..], i + 1);
      UnderAt(Decimal(i), Leaves(items[0]));
      forall l | l in ItemLeaves(items[1..], i + 1)
        ensures l.path[0] != Decimal(i)
      {
        var j: nat :| i + 1 <= j && l.path[0] == Decimal(j);
        DecimalInjective(i, j);
      }
      DistinctConcat(Decimal(i), Leaves(items[0]), ItemLeaves(items[1..], i + 1));
      forall l | l in ItemLeaves(items, i)
        ensures IndexedFrom(l, i)
      {
        if l in ItemLeaves(items[1..], i + 1) {
          var j: nat :| i + 1 <= j && l.path[0] == Decimal(j);
          assert i <= j;
        } else {
          assert ItemLeaves(items, i) == Under(Decimal(i), Leaves(items[0])) + ItemLeaves(items[1..], i + 1);
          assert l in Under(Decimal(i), Leaves(items[0]));
          assert l.path[0] == Decimal(i);
        }
      }
    }
  }

  lemma {:induction false} MemberPathsDistinct(ms: seq<Member>)
    requires UniqueKeys(Object(ms))
    ensures DistinctPaths(MemberLeaves(ms))
    ensures forall l | l in MemberLeaves(ms) :: l.path != [] && exists m :: m in ms && l.path[0] == m.key
    decreases ms, 0
  {
    if ms != [] {
      assert ms[0] in ms;
      UniqueKeysTail(ms);
      PathsDistinct(ms[0].value);
      MemberPathsDistinct(ms[1..]);
      UnderAt(ms[0].key, Leaves(ms[0].value));
      DistinctConcat(ms[0].key, Leaves(ms[0].value), MemberLeaves(ms[1..]));
    }
  }

  /** Two parameters share a name exactly when their paths are the same once cut at "][". */
  lemma NamesEqualIff(prefix: string, v: Json, i: nat, j: nat)
    requires Flatten(prefix, v).Some? && i < j < |Flatten(prefix, v).value|
    ensures |Leaves(v)| == |Flatten(prefix, v).value|
    ensures Flatten(prefix, v).value[i].0 == Flatten(prefix, v).value[j].0 <==>
            SplitPath(Leaves(v)[i].path) == SplitPath(Leaves(v)[j].path)
  {
    LeafCorrespondence(prefix, v);
    NamedAt(prefix, Leaves(v), i);
    NamedAt(prefix, Leaves(v), j);
    SameNameIff(prefix, Leaves(v)[i].path, Leaves(v)[j].path);
  }

  /** So where no key on the way to a scalar contains "][", no two do. */
  lemma NamesDistinct(prefix: string, v: Json, i: nat, j: nat)
    requires UniqueKeys(v) && AllReadable(Leaves(v)) && Flatten(prefix, v).Some? && i < j < |Flatten(prefix, v).value|
    ensures Flatten(prefix, v).value[i].0 != Flatten(prefix, v).value[j].0
  {
    NamesEqualIff(prefix, v, i, j);
    PathsDistinct(v);
    SplitPathIff(Leaves(v)[i].path);
    SplitPathIff(Leaves(v)[j].path);
  }

  /** An instance: two different objects that print the same parameter. */
  lemma BracketedKeysCollide(prefix: string)
    ensures
      var flat := Object([Member("a][b", Str("1"))]);
      var nested := Object([Member("a", Object([Member("b", Str("1"))]))]);
      && Flatten(prefix, flat).Some? && Flatten(prefix, flat) == Flatten(prefix, nested)
      && Erase(flat) != Erase(nested)
  {
    var flat := Object([Member("a][b", Str("1"))]);
    var inner := [Member("b", Str("1"))];
    var nested := Object([Member("a", Object(inner))]);
    assert flat.members[1..] == [] && nested.members[1..] == [] && inner[1..] == [];
    var p := (prefix + "[a][b]", "1");
    assert prefix + "[" + "a][b" + "]" == p.0;
    assert prefix + "[" + "a" + "]" + "[" + "b" + "]" == p.0;
    assert Flatten(prefix, flat) == Append([p], Some([]));
    assert Flatten(prefix + "[" + "a" + "]", Object(inner)) == Append([p], Some([]));
    assert [p] + [] == [p];
    assert FlattenMember(prefix, nested.members[0]) == Some([p]);
    assert Flatten(prefix, nested) == Append([p], Some([]));
    assert "a" in EraseMembers(nested.members) by {
      assert Leaves(Object(inner)) != [];
    }
    assert "a" !in EraseMembers(flat.members);
  }
}
