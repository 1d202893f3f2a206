/** Unpadded base64url (section 5 of RFC 4648), read strictly as the server does, and leniently as a browser does. */
module Base64Url {
  import opened Common

  type Byte = x: int | 0 <= x < 256
  type Sextet = x: int | 0 <= x < 64

  function CharOf(i: Sextet): char {
    if i < 26 then (i + 'A' as int) as char
    else if i < 52 then (i - 26 + 'a' as int) as char
    else if i < 62 then (i - 52 + '0' as int) as char
    else if i == 62 then '-' else '_'
  }

  function ValueOf(c: char): Option<Sextet> {
    if 'A' <= c <= 'Z' then Some(c as int - 'A' as int)
    else if 'a' <= c <= 'z' then Some(c as int - 'a' as int + 26)
    else if '0' <= c <= '9' then Some(c as int - '0' as int + 52)
    else if c == '-' then Some(62)
    else if c == '_' then Some(63)
    else None
  }

  predicate InAlphabet(s: string) {
    forall i | 0 <= i < |s| :: ValueOf(s[i]).Some?
  }

  function Chars(v: seq<Sextet>): string {
    seq(|v|, i requires 0 <= i < |v| => CharOf(v[i]))
  }

  function Values(s: string): seq<Sextet>
    requires InAlphabet(s)
  {
    seq(|s|, i requires 0 <= i < |s| => ValueOf(s[i]).value)
  }

  // Three bytes a, b, c hold the bits of four sextets.

  function First(a: Byte): Sextet { a as int / 4 }
  function Second(a: Byte, b: Byte): Sextet { a as int % 4 * 16 + b as int / 16 }
  function Third(b: Byte, c: Byte): Sextet { b as int % 16 * 4 + c as int / 64 }
  function Fourth(c: Byte): Sextet { c as int % 64 }

  function Upper(w: Sextet, x: Sextet): Byte { w as int * 4 + x as int / 16 }
  function Middle(x: Sextet, y: Sextet): Byte { x as int % 16 * 16 + y as int / 4 }
  function Lower(y: Sextet, z: Sextet): Byte { y as int % 4 * 64 + z as int }

  function Sextets(b: seq<Byte>): seq<Sextet> {
    if |b| == 0 then []
    else if |b| == 1 then [First(b[0]), Second(b[0], 0)]
    else if |b| == 2 then [First(b[0]), Second(b[0], b[1]), Third(b[1], 0)]
    else [First(b[0]), Second(b[0], b[1]), Third(b[1], b[2]), Fourth(b[2])] + Sextets(b[3..])
  }

  /** The bytes in a run of sextets; if `strict`, the bits left over at the end must be zero. */
  function Bytes(v: seq<Sextet>, strict: bool): Option<seq<Byte>> {
    if |v| == 0 then Some([])
    else if |v| == 1 then None
    else if |v| == 2 then if strict && v[1] % 16 != 0 then None else Some([Upper(v[0], v[1])])
    else if |v| == 3 then if strict && v[2] % 4 != 0 then None else Some([Upper(v[0], v[1]), Middle(v[1], v[2])])
    else
      var rest := Bytes(v[4..], strict);
      if rest.None? then None else Some([Upper(v[0], v[1]), Middle(v[1], v[2]), Lower(v[2], v[3])] + rest.value)
  }

  function Encode(b: seq<Byte>): string {
    Chars(Sextets(b))
  }

  /** URL_SAFE_NO_PAD: no character outside the alphabet, no padding, no stray bits. */
  function Decode(s: string): Option<seq<Byte>> {
    if InAlphabet(s) then Bytes(Values(s), true) else None
  }

  // ---------------------------------------------------------------- characters and sextets

  lemma CharsValues(v: seq<Sextet>)
    ensures InAlphabet(Chars(v)) && Values(Chars(v)) == v
  {
    assert forall i | 0 <= i < |v| :: ValueOf(Chars(v)[i]) == Some(v[i]);
  }

  lemma ValuesChars(s: string)
    requires InAlphabet(s)
    ensures Chars(Values(s)) == s
  {
    forall i | 0 <= i < |s|
      ensures CharOf(Values(s)[i]) == s[i]
    {
    }
  }

  // ---------------------------------------------------------------- sextets and bytes

  lemma LowBits(q: nat, r: nat)
    ensures r < 16 ==> (q * 16 + r) % 16 == r && (q * 16 + r) / 16 == q
    ensures r < 4 ==> (q * 4 + r) % 4 == r && (q * 4 + r) / 4 == q
  {
  }

  lemma UnpackUpper(a: Byte, b: Byte)
    ensures Upper(First(a), Second(a, b)) == a && Second(a, 0) % 16 == 0
  {
    LowBits(a as int % 4, b as int / 16);
    assert Second(a, b) as int / 16 == a as int % 4;
    LowBits(a as int % 4, 0);
  }

  lemma UnpackMiddle(a: Byte, b: Byte, c: Byte)
    ensures Middle(Second(a, b), Third(b, c)) == b && Third(b, 0) % 4 == 0
  {
    LowBits(a as int % 4, b as int / 16);
    assert Second(a, b) as int % 16 == b as int / 16;
    LowBits(b as int % 16, c as int / 64);
    assert Third(b, c) as int / 4 == b as int % 16;
    LowBits(b as int % 16, 0);
  }

  lemma UnpackLower(b: Byte, c: Byte)
    ensures Lower(Third(b, c), Fourth(c)) == c
  {
    LowBits(b as int % 16, c as int / 64);
    assert Third(b, c) as int % 4 == c as int / 64;
  }

  lemma Unpack(a: Byte, b: Byte, c: Byte)
    ensures Upper(First(a), Second(a, b)) == a
    ensures Middle(Second(a, b), Third(b, c)) == b
    ensures Lower(Third(b, c), Fourth(c)) == c
    ensures Second(a, 0) % 16 == 0 && Third(b, 0) % 4 == 0
  {
    UnpackUpper(a, b);
    UnpackMiddle(a, b, c);
    UnpackLower(b, c);
  }

  lemma Pack(w: Sextet, x: Sextet, y: Sextet, z: Sextet)
    ensures First(Upper(w, x)) == w
    ensures Second(Upper(w, x), Middle(x, y)) == x
    ensures Third(Middle(x, y), Lower(y, z)) == y
    ensures Fourth(Lower(y, z)) == z
    ensures x % 16 == 0 ==> Second(Upper(w, x), 0) == x
    ensures y % 4 == 0 ==> Third(Middle(x, y), 0) == y
  {
  }

  lemma TwoSextets(w: Sextet, x: Sextet)
    requires x % 16 == 0
    ensures Bytes([w, x], true) == Some([Upper(w, x)])
  {
  }

  lemma OneByte(a: Byte)
    ensures Bytes([First(a), Second(a, 0)], true) == Some([a])
  {
    Unpack(a, 0, 0);
    TwoSextets(First(a), Second(a, 0));
  }

  lemma GroupBytes(a: Byte, b: Byte, c: Byte, v: seq<Sextet>, rest: seq<Byte>)
    requires Bytes(v, true) == Some(rest)
    ensures Bytes([First(a), Second(a, b), Third(b, c), Fourth(c)] + v, true) == Some([a, b, c] + rest)
  {
    Unpack(a, b, c);
    var w := [First(a), Second(a, b), Third(b, c), Fourth(c)] + v;
    assert w[4..] == v;
  }

  lemma TwoBytes(a: Byte, b: Byte)
    ensures Bytes([First(a), Second(a, b), Third(b, 0)], true) == Some([a, b])
  {
    Unpack(a, b, 0);
  }

  lemma {:induction false} BytesSextets(b: seq<Byte>)
    ensures Bytes(Sextets(b), true) == Some(b)
  {
    if |b| == 1 {
      OneByte(b[0]);
      assert b == [b[0]];
    } else if |b| == 2 {
      TwoBytes(b[0], b[1]);
      assert b == [b[0], b[1]];
    } else if |b| > 2 {
      BytesSextets(b[3..]);
      GroupBytes(b[0], b[1], b[2], Sextets(b[3..]), b[3..]);
      assert b == [b[0], b[1], b[2]] + b[3..];
      assert Sextets(b) == [First(b[0]), Second(b[0], b[1]), Third(b[1], b[2]), Fourth(b[2])] + Sextets(b[3..]);
    }
  }

  lemma {:induction false} SextetsBytes(v: seq<Sextet>)
    requires Bytes(v, true).Some?
    ensures Sextets(Bytes(v, true).value) == v
  {
    if |v| == 2 {
      Pack(v[0], v[1], 0, 0);
      assert v == [v[0], v[1]];
    } else if |v| == 3 {
      Pack(v[0], v[1], v[2], 0);
      assert v == [v[0], v[1], v[2]];
    } else if |v| > 3 {
      Pack(v[0], v[1], v[2], v[3]);
      SextetsBytes(v[4..]);
      assert Bytes(v, true).value[3..] == Bytes(v[4..], true).value;
      assert v == [v[0], v[1], v[2], v[3]] + v[4..];
    }
  }

  /**
   Decoding inverts encoding, both ways and for every length modulo 3: a string decodes to `b` exactly when it is
   the canonical encoding of `b`.  So decoding is injective where it is defined.
   */
  lemma DecodeIffEncode(s: string, b: seq<Byte>)
    ensures Decode(s) == Some(b) <==> s == Encode(b)
  {
    CharsValues(Sextets(b));
    BytesSextets(b);
    if Decode(s) == Some(b) {
      SextetsBytes(Values(s));
      ValuesChars(s);
    }
  }

  /** A lenient reader agrees wherever the strict one succeeds. */
  lemma {:induction false} LenientAgrees(v: seq<Sextet>)
    requires Bytes(v, true).Some?
    ensures Bytes(v, false) == Bytes(v, true)
  {
    if |v| > 3 {
      LenientAgrees(v[4..]);
    }
  }

  /** No whole number of bytes leaves a single sextet over. */
  lemma {:induction false} BytesLength(v: seq<Sextet>)
    requires Bytes(v, true).Some?
    ensures |v| % 4 != 1
  {
    if |v| > 3 {
      var tail := v[4..];
      BytesLength(tail);
      assert |v| == |tail| + 4;
    }
  }

  // ---------------------------------------------------------------- the alphabet and the bit order

  /** The alphabet of table 2 of RFC 4648: capitals, small letters, digits, and two more. */
  lemma AlphabetIs(i: Sextet)
    ensures CharOf(0) == 'A' && CharOf(25) == 'Z' && CharOf(26) == 'a' && CharOf(51) == 'z'
    ensures CharOf(52) == '0' && CharOf(61) == '9' && CharOf(62) == '-' && CharOf(63) == '_'
    ensures i != 25 && i != 51 && i < 61 ==> CharOf(i + 1) as int == CharOf(i) as int + 1
  {
  }

  /** The sextets of a group are the digits, most significant first, of the number its bytes are the digits of. */
  lemma SextetsAreBits(a: Byte, b: Byte, c: Byte)
    ensures
      var v := Sextets([a, b, c]);
      |v| == 4 && ((v[0] as int * 64 + v[1] as int) * 64 + v[2] as int) * 64 + v[3] as int
               == (a as int * 256 + b as int) * 256 + c as int
  {
    assert [a, b, c][3..] == [];
    assert Sextets([]) == [];
    assert a as int == a as int / 4 * 4 + a as int % 4;
    assert b as int == b as int / 16 * 16 + b as int % 16;
    assert c as int == c as int / 64 * 64 + c as int % 64;
  }

  /** What is left over is read as if zeros followed, of which only the needed sextets are written. */
  lemma ShortGroups(a: Byte, b: Byte)
    ensures Sextets([a]) == Sextets([a, 0, 0])[..2] && Sextets([a, b]) == Sextets([a, b, 0])[..3]
  {
    assert [a, 0, 0][3..] == [] && [a, b, 0][3..] == [];
    assert Sextets([]) == [];
  }
}
