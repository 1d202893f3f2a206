/** UTF-8 (RFC 3629): the strict decoder of the server, and the encoding it inverts. */
module Unicode {
  import opened Common
  import opened Base64Url

  /** Text as code points. */
  type Text = seq<nat>

  // ---------------------------------------------------------------- decoding

  predicate Cont(b: seq<Byte>, i: nat, lo: int, hi: int) {
    i < |b| && lo <= b[i] <= hi
  }

  /** The length of the well-formed sequence at the front of `b`; 0 if there is none. */
  function Width(b: seq<Byte>): (n: nat)
    requires |b| > 0
    ensures n <= |b| && n <= 4
  {
    var c := b[0];
    if c < 0x80 then 1
    else if 0xC2 <= c <= 0xDF && Cont(b, 1, 0x80, 0xBF) then 2
    else if 0xE0 <= c <= 0xEF
            && Cont(b, 1, if c == 0xE0 then 0xA0 else 0x80, if c == 0xED then 0x9F else 0xBF)
            && Cont(b, 2, 0x80, 0xBF) then 3
    else if 0xF0 <= c <= 0xF4
            && Cont(b, 1, if c == 0xF0 then 0x90 else 0x80, if c == 0xF4 then 0x8F else 0xBF)
            && Cont(b, 2, 0x80, 0xBF) && Cont(b, 3, 0x80, 0xBF) then 4
    else 0
  }

  function Point(b: seq<Byte>): nat
    requires |b| > 0 && Width(b) > 0
  {
    match Width(b)
    case 1 => b[0]
    case 2 => b[0] as int % 32 * 64 + b[1] as int % 64
    case 3 => (b[0] as int % 16 * 64 + b[1] as int % 64) * 64 + b[2] as int % 64
    case _ => ((b[0] as int % 8 * 64 + b[1] as int % 64) * 64 + b[2] as int % 64) * 64 + b[3] as int % 64
  }

  /** from_utf8 */
  function Utf8(b: seq<Byte>): Option<Text> {
    if |b| == 0 then Some([])
    else if Width(b) == 0 then None
    else
      var rest := Utf8(b[Width(b)..]);
      if rest.None? then None else Some([Point(b)] + rest.value)
  }

  // ---------------------------------------------------------------- encoding

  /** A code point that is no surrogate. */
  predicate Scalar(n: nat) {
    n < 0xD800 || 0xE000 <= n < 0x110000
  }

  predicate Scalars(t: Text) {
    forall n | n in t :: Scalar(n)
  }

  /** The six bits of `n` above bit `6 * k`, as a continuation byte. */
  function Tail(n: nat, k: nat): Byte {
    0x80 + (match k case 0 => n case 1 => n / 0x40 case _ => n / 0x1000) % 0x40
  }

  function EncodedPoint(n: nat): (b: seq<Byte>)
    requires Scalar(n)
    ensures 1 <= |b| <= 4
  {
    if n < 0x80 then [n]
    else if n < 0x800 then [0xC0 + n / 0x40, Tail(n, 0)]
    else if n < 0x10000 then [0xE0 + n / 0x1000, Tail(n, 1), Tail(n, 0)]
    else [0xF0 + n / 0x40000, Tail(n, 2), Tail(n, 1), Tail(n, 0)]
  }

  function EncodedText(t: Text): seq<Byte>
    requires Scalars(t)
  {
    if t == [] then [] else assert t[0] in t; EncodedPoint(t[0]) + EncodedText(t[1..])
  }

  // ---------------------------------------------------------------- they invert each other

  lemma TwoBytePoint(n: nat, rest: seq<Byte>)
    requires 0x80 <= n < 0x800
    ensures Width(EncodedPoint(n) + rest) == 2 && Point(EncodedPoint(n) + rest) == n
  {
    var b := EncodedPoint(n) + rest;
    assert b[0] == 0xC0 + n / 0x40 && b[1] == 0x80 + n % 0x40;
  }

  /** A number in base 64. */
  lemma InDigits(n: nat)
    ensures n == ((n / 0x40000 * 64 + n / 0x1000 % 64) * 64 + n / 0x40 % 64) * 64 + n % 64
    ensures n < 0x40000 ==> n / 0x40000 == 0 && n / 0x1000 % 64 == n / 0x1000
  {
    assert n / 0x1000 == n / 0x40000 * 64 + n / 0x1000 % 64;
    assert n / 0x40 == n / 0x1000 * 64 + n / 0x40 % 64;
  }

  lemma ThreeBytePoint(n: nat, rest: seq<Byte>)
    requires Scalar(n) && 0x800 <= n < 0x10000
    ensures Width(EncodedPoint(n) + rest) == 3 && Point(EncodedPoint(n) + rest) == n
  {
    var b := EncodedPoint(n) + rest;
    assert b[0] == 0xE0 + n / 0x1000 && b[1] == 0x80 + n / 0x40 % 0x40 && b[2] == 0x80 + n % 0x40;
    InDigits(n);
  }

  lemma LowBits(q: nat, r: nat)
    requires r < 64
    ensures (0x80 + r) % 64 == r
    ensures q < 8 ==> (0xF0 + q) % 8 == q
  {
  }

  lemma FourByteWidth(b: seq<Byte>, w: nat, x: nat, y: nat, z: nat)
    requires |b| >= 4 && x < 64 && y < 64 && z < 64 && w <= 4
    requires b[0] == 0xF0 + w && b[1] == 0x80 + x && b[2] == 0x80 + y && b[3] == 0x80 + z
    requires w == 0 ==> x >= 16
    requires w == 4 ==> x < 16
    ensures Width(b) == 4 && Point(b) == ((w * 64 + x) * 64 + y) * 64 + z
  {
    assert Width(b) == 4;
    LowBits(w, x);
    LowBits(w, y);
    LowBits(w, z);
  }

  lemma FourBytePoint(n: nat, rest: seq<Byte>)
    requires 0x10000 <= n < 0x110000
    ensures Width(EncodedPoint(n) + rest) == 4 && Point(EncodedPoint(n) + rest) == n
  {
    InDigits(n);
    FourByteWidth(EncodedPoint(n) + rest, n / 0x40000, n / 0x1000 % 64, n / 0x40 % 64, n % 64);
  }

  lemma PointOfEncoded(n: nat, rest: seq<Byte>)
    requires Scalar(n)
    ensures Width(EncodedPoint(n) + rest) == |EncodedPoint(n)| && Point(EncodedPoint(n) + rest) == n
  {
    if 0x80 <= n < 0x800 {
      TwoBytePoint(n, rest);
    } else if 0x800 <= n < 0x10000 {
      ThreeBytePoint(n, rest);
    } else if 0x10000 <= n {
      FourBytePoint(n, rest);
    }
  }

  /** Taking a number in base 64 apart again. */
  lemma Digits(w: nat, x: nat, y: nat, z: nat)
    requires x < 64 && y < 64 && z < 64
    ensures
      var n := ((w * 64 + x) * 64 + y) * 64 + z;
      n % 64 == z && n / 64 % 64 == y && n / 0x1000 % 64 == x && n / 0x40000 == w
  {
    var n := ((w * 64 + x) * 64 + y) * 64 + z;
    assert n / 64 == (w * 64 + x) * 64 + y;
    assert n / 0x1000 == w * 64 + x;
  }

  lemma TwoBytesEncode(b: seq<Byte>)
    requires |b| > 0 && Width(b) == 2
    ensures Scalar(Point(b)) && EncodedPoint(Point(b)) == b[..2]
  {
    Digits(0, 0, b[0] as int % 32, b[1] as int % 64);
    assert 0x80 <= Point(b) < 0x800;
  }

  lemma ThreeBytesEncode(b: seq<Byte>)
    requires |b| > 0 && Width(b) == 3
    ensures Scalar(Point(b)) && EncodedPoint(Point(b)) == b[..3]
  {
    Digits(0, b[0] as int % 16, b[1] as int % 64, b[2] as int % 64);
    assert Point(b) / 0x1000 == b[0] as int % 16;
    assert 0x800 <= Point(b) < 0x10000 && Scalar(Point(b));
  }

  lemma FourBytesEncode(b: seq<Byte>)
    requires |b| > 0 && Width(b) == 4
    ensures Scalar(Point(b)) && EncodedPoint(Point(b)) == b[..4]
  {
    Digits(b[0] as int % 8, b[1] as int % 64, b[2] as int % 64, b[3] as int % 64);
    assert 0x10000 <= Point(b) < 0x110000;
  }

  lemma EncodedOfPoint(b: seq<Byte>)
    requires |b| > 0 && Width(b) > 0
    ensures Scalar(Point(b)) && EncodedPoint(Point(b)) == b[..Width(b)]
  {
    match Width(b)
    case 1 =>
    case 2 => TwoBytesEncode(b);
    case 3 => ThreeBytesEncode(b);
    case _ => FourBytesEncode(b);
  }

  lemma EncodedFirst(n: nat, t: Text)
    requires Scalar(n) && Scalars(t)
    ensures Scalars([n] + t) && EncodedText([n] + t) == EncodedPoint(n) + EncodedText(t)
  {
    assert ([n] + t)[1..] == t;
  }

  lemma {:induction false} DecodesEncoded(t: Text)
    requires Scalars(t)
    ensures Utf8(EncodedText(t)) == Some(t)
  {
    if t != [] {
      assert t[0] in t;
      var rest := EncodedText(t[1..]);
      PointOfEncoded(t[0], rest);
      DecodesEncoded(t[1..]);
      assert EncodedText(t)[|EncodedPoint(t[0])|..] == rest;
      assert t == [t[0]] + t[1..];
    }
  }

  lemma EncodesLonger(b: seq<Byte>, n: nat, k: nat, t: Text)
    requires Scalar(n) && Scalars(t) && k <= |b| && EncodedPoint(n) == b[..k] && EncodedText(t) == b[k..]
    ensures Scalars([n] + t) && EncodedText([n] + t) == b
  {
    EncodedFirst(n, t);
    assert b == b[..k] + b[k..];
  }

  lemma {:induction false} EncodesDecoded(b: seq<Byte>)
    requires Utf8(b).Some?
    ensures Scalars(Utf8(b).value) && EncodedText(Utf8(b).value) == b
    decreases |b|
  {
    if |b| > 0 {
      var k, t := Width(b), Utf8(b[Width(b)..]).value;
      EncodesDecoded(b[k..]);
      EncodedOfPoint(b);
      EncodesLonger(b, Point(b), k, t);
      assert Utf8(b) == Some([Point(b)] + t);
    }
  }

  /** Bytes decode to a text exactly when they are the encoding of it, a text of scalar values. */
  lemma Utf8Iff(b: seq<Byte>, t: Text)
    ensures Utf8(b) == Some(t) <==> Scalars(t) && EncodedText(t) == b
  {
    if Utf8(b) == Some(t) {
      EncodesDecoded(b);
    }
    if Scalars(t) && EncodedText(t) == b {
      DecodesEncoded(t);
    }
  }

  /** The euro sign takes three bytes. */
  lemma EuroSign()
    ensures Utf8([0xE2, 0x82, 0xAC]) == Some([0x20AC])
  {
    var t: Text := [0x20AC];
    var rest: Text := [];
    assert t[1..] == rest && EncodedText(rest) == [];
    assert EncodedPoint(0x20AC) == [0xE2, 0x82, 0xAC];
    assert EncodedText(t) == [0xE2, 0x82, 0xAC] + [];
    Utf8Iff([0xE2, 0x82, 0xAC], t);
  }
}
