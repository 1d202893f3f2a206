/**
 Reading the payload of a bearer token in the JWS compact form (section 7.1 of RFC 7515): the server's
 mandatory and optional extractors, and the web client's decodeJwt.
 */
module Jws {
  import opened Common
  import opened Base64Url
  import opened Unicode

  datatype Result<+T, +E> = Ok(value: T) | Err(error: E)

  // ---------------------------------------------------------------- splitting

  /** split('.') */
  function Split(s: string): (parts: seq<string>)
    ensures |parts| >= 1
  {
    if s == "" then [""]
    else
      var rest := Split(s[1..]);
      if s[0] == '.' then [""] + rest else [[s[0]] + rest[0]] + rest[1..]
  }

  function Join(parts: seq<string>): string
    requires |parts| >= 1
  {
    if |parts| == 1 then parts[0] else parts[0] + "." + Join(parts[1..])
  }

  predicate Dotless(parts: seq<string>) {
    forall p | p in parts :: '.' !in p
  }

  lemma {:induction false} SplitJoins(s: string)
    ensures Dotless(Split(s)) && Join(Split(s)) == s
  {
    if s != "" {
      SplitJoins(s[1..]);
      var rest := Split(s[1..]);
      if s[0] == '.' {
        assert Split(s)[1..] == rest;
        assert s == "" + "." + s[1..];
      } else {
        var parts := [[s[0]] + rest[0]] + rest[1..];
        assert rest[0] in rest;
        assert parts[1..] == rest[1..];
        assert s == [s[0]] + s[1..];
        if |rest| > 1 {
          assert [s[0]] + (rest[0] + "." + Join(rest[1..])) == [s[0]] + rest[0] + "." + Join(rest[1..]);
        }
      }
    }
  }

  lemma {:induction false} JoinSplits(parts: seq<string>)
    requires |parts| >= 1 && Dotless(parts)
    ensures Split(Join(parts)) == parts
    decreases |parts|, |parts[0]|
  {
    var s := Join(parts);
    if parts[0] == "" {
      if |parts| > 1 {
        assert s[1..] == Join(parts[1..]);
        JoinSplits(parts[1..]);
        assert parts == [""] + parts[1..];
      } else {
        assert parts == [""];
      }
    } else {
      var c := parts[0][0];
      assert parts[0] in parts;
      assert c in parts[0];
      var parts' := [parts[0][1..]] + parts[1..];
      assert parts'[1..] == parts[1..];
      assert s[1..] == Join(parts');
      assert s[0] == c;
      JoinSplits(parts');
      assert [c] + parts[0][1..] == parts[0];
      assert parts == [parts[0]] + parts[1..];
    }
  }

  /** The parts of a string are the one dotless sequence that joins to it. */
  lemma SplitIff(s: string, parts: seq<string>)
    requires |parts| >= 1
    ensures Split(s) == parts <==> Dotless(parts) && Join(parts) == s
  {
    SplitJoins(s);
    if Dotless(parts) && Join(parts) == s {
      JoinSplits(parts);
    }
  }

  // ---------------------------------------------------------------- bytes as text

  /** One character per byte: what a browser's atob returns. */
  function Latin1(b: seq<Byte>): Text {
    seq(|b|, i requires 0 <= i < |b| => b[i] as nat)
  }

  predicate Ascii(b: seq<Byte>) {
    forall i | 0 <= i < |b| :: b[i] < 0x80
  }

  // ---------------------------------------------------------------- the server's extractors

  datatype JwtError = InvalidToken | ParsingError
  datatype AuthError = InvalidToken | TokenNotFound

  /** Jwt and ResultToken: the claims with the token they came from. */
  datatype Extracted<C> = Extracted(claims: C, token: string)

  /** parse_jwt_payload; `parse` stands for the JSON deserializer of JwtClaim. */
  function ParseJwtPayload<C>(token: string, parse: Text -> Option<C>): Result<C, JwtError> {
    var parts := Split(token);
    if |parts| != 3 then Err(JwtError.InvalidToken)
    else
      var decoded := Decode(parts[1]);
      if decoded.None? then Err(ParsingError)
      else
        var text := Utf8(decoded.value);
        if text.None? then Err(ParsingError)
        else
          var claims := parse(text.value);
          if claims.None? then Err(ParsingError) else Ok(claims.value)
  }

  const BEARER := "Bearer "

  /** OptionalToken::from_request_parts on the visible-ASCII Authorization header, if there is one. */
  function OptionalToken<C>(header: Option<string>, parse: Text -> Option<C>): Option<Extracted<C>> {
    if header.None? || !(BEARER <= header.value) then None
    else
      var token := header.value[|BEARER|..];
      if token == "" then None
      else
        match ParseJwtPayload(token, parse)
        case Ok(claims) => Some(Extracted(claims, token))
        case Err(_) => None
  }

  /** Jwt::from_request_parts on the bearer credentials, if there are any. */
  function MandatoryToken<C>(bearer: Option<string>, parse: Text -> Option<C>): Result<Extracted<C>, AuthError> {
    if bearer.None? then Err(TokenNotFound)
    else
      var t := Split(bearer.value);
      if |t| != 3 then Err(AuthError.InvalidToken)
      else
        var decoded := Decode(t[1]);
        if decoded.None? then Err(AuthError.InvalidToken)
        else
          var text := Utf8(decoded.value);
          if text.None? then Err(AuthError.InvalidToken)
          else
            var claims := parse(text.value);
            if claims.None? then Err(AuthError.InvalidToken) else Ok(Extracted(claims.value, bearer.value))
  }

  /** On every token string the two extractors both reject, or both produce the same claims for the same token. */
  lemma ExtractorsAgree<C>(token: string, parse: Text -> Option<C>)
    ensures
      var optional := OptionalToken(Some(BEARER + token), parse);
      var mandatory := MandatoryToken(Some(token), parse);
      if optional.Some? then mandatory == Ok(optional.value) else mandatory == Err(AuthError.InvalidToken)
  {
    assert (BEARER + token)[|BEARER|..] == token;
    if token == "" {
      assert Split(token) == [""];
    }
  }

  // ---------------------------------------------------------------- the compact form

  function Compact(header: seq<Byte>, payload: seq<Byte>, signature: seq<Byte>): string {
    Encode(header) + "." + Encode(payload) + "." + Encode(signature)
  }

  lemma EncodingHasNoDot(b: seq<Byte>)
    ensures '.' !in Encode(b)
  {
    assert forall i | 0 <= i < |Encode(b)| :: Encode(b)[i] == CharOf(Sextets(b)[i]);
  }

  lemma JoinThree(x: string, y: string, z: string)
    ensures Join([x, y, z]) == x + "." + y + "." + z
  {
    var parts := [x, y, z];
    assert parts[1..] == [y, z] && [y, z][1..] == [z];
    assert Join([y, z]) == y + "." + z;
    assert x + "." + (y + "." + z) == x + "." + y + "." + z;
  }

  /** The compact form splits into exactly its three parts, and the middle one decodes to the payload. */
  lemma CompactInverts(header: seq<Byte>, payload: seq<Byte>, signature: seq<Byte>)
    ensures
      var parts := Split(Compact(header, payload, signature));
      parts == [Encode(header), Encode(payload), Encode(signature)] && Decode(parts[1]) == Some(payload)
  {
    EncodingHasNoDot(header);
    EncodingHasNoDot(payload);
    EncodingHasNoDot(signature);
    JoinThree(Encode(header), Encode(payload), Encode(signature));
    JoinSplits([Encode(header), Encode(payload), Encode(signature)]);
    DecodeIffEncode(Encode(payload), payload);
  }

  /** Two dots around the canonical encoding of `p`, with anything dotless before and after. */
  ghost predicate Carries(token: string, p: seq<Byte>) {
    exists x, y :: '.' !in x && '.' !in y && token == x + "." + Encode(p) + "." + y
  }

  lemma PayloadIff(token: string, p: seq<Byte>)
    ensures Carries(token, p) <==> |Split(token)| == 3 && Decode(Split(token)[1]) == Some(p)
  {
    var t := Split(token);
    if |t| == 3 && Decode(t[1]) == Some(p) {
      SplitJoins(token);
      DecodeIffEncode(t[1], p);
      assert t[0] in t && t[2] in t && t == [t[0], t[1], t[2]];
      JoinThree(t[0], t[1], t[2]);
    }
    forall x, y | '.' !in x && '.' !in y && token == x + "." + Encode(p) + "." + y
      ensures |t| == 3 && Decode(t[1]) == Some(p)
    {
      EncodingHasNoDot(p);
      JoinThree(x, Encode(p), y);
      JoinSplits([x, Encode(p), y]);
      DecodeIffEncode(Encode(p), p);
    }
  }

  /**
   A token is accepted exactly when it is two dots around the canonical base64url of the UTF-8 of a text that parses as
   claims; what stands before and after the dots is not looked at.
   */
  lemma AcceptedIff<C(!new)>(token: string, parse: Text -> Option<C>, claims: C)
    ensures ParseJwtPayload(token, parse) == Ok(claims) <==>
            exists t :: Scalars(t) && Carries(token, EncodedText(t)) && parse(t) == Some(claims)
  {
    if ParseJwtPayload(token, parse) == Ok(claims) {
      var p := Decode(Split(token)[1]).value;
      PayloadIff(token, p);
      Utf8Iff(p, Utf8(p).value);
    }
    forall t | Scalars(t) && Carries(token, EncodedText(t)) && parse(t) == Some(claims)
      ensures ParseJwtPayload(token, parse) == Ok(claims)
    {
      PayloadIff(token, EncodedText(t));
      Utf8Iff(EncodedText(t), t);
    }
  }

  /** Two dots, with anything dotless around them. */
  ghost predicate ThreeParts(token: string) {
    exists x, y, z :: '.' !in x && '.' !in y && '.' !in z && token == x + "." + y + "." + z
  }

  /** Of the tokens that are not accepted, those without exactly two dots are invalid, all others do not parse. */
  lemma RejectedIff<C>(token: string, parse: Text -> Option<C>)
    ensures ParseJwtPayload(token, parse) == Err(JwtError.InvalidToken) <==> !ThreeParts(token)
    ensures ParseJwtPayload(token, parse) == Err(ParsingError) <==>
            ThreeParts(token) && !ParseJwtPayload(token, parse).Ok?
  {
    var t := Split(token);
    if |t| == 3 {
      SplitJoins(token);
      JoinThree(t[0], t[1], t[2]);
      assert t == [t[0], t[1], t[2]] && t[0] in t && t[1] in t && t[2] in t;
    }
    forall x, y, z | '.' !in x && '.' !in y && '.' !in z && token == x + "." + y + "." + z
      ensures |t| == 3
    {
      JoinThree(x, y, z);
      JoinSplits([x, y, z]);
    }
  }

  /** The optional extractor yields claims exactly for a bearer header with a token that is accepted. */
  lemma OptionalIff<C>(header: Option<string>, parse: Text -> Option<C>, e: Extracted<C>)
    ensures OptionalToken(header, parse) == Some(e) <==>
            header == Some("Bearer " + e.token) && ParseJwtPayload(e.token, parse) == Ok(e.claims)
  {
    assert ("Bearer " + e.token)[|BEARER|..] == e.token;
    if header.Some? && BEARER <= header.value {
      assert header.value == BEARER + header.value[|BEARER|..];
    }
    if e.token == "" {
      assert Split(e.token) == [""];
    }
  }

  /** The mandatory one does so too, and tells missing credentials from bad ones. */
  lemma MandatoryIff<C>(bearer: Option<string>, parse: Text -> Option<C>)
    ensures MandatoryToken(bearer, parse) == Err(TokenNotFound) <==> bearer.None?
    ensures MandatoryToken(bearer, parse).Ok? <==> bearer.Some? && ParseJwtPayload(bearer.value, parse).Ok?
    ensures MandatoryToken(bearer, parse).Ok? ==>
              MandatoryToken(bearer, parse) == Ok(Extracted(ParseJwtPayload(bearer.value, parse).value, bearer.value))
  {
  }

  // ---------------------------------------------------------------- the web client's reader

  /** replace(/-/g, '+').replace(/_/g, '/') */
  function Normalized(s: string): string {
    seq(|s|, i requires 0 <= i < |s| => if s[i] == '-' then '+' else if s[i] == '_' then '/' else s[i])
  }

  /** padEnd(Math.ceil(length / 4) * 4, '=') */
  function Padded(s: string): string {
    s + seq((4 - |s| % 4) % 4, _ => '=')
  }

  predicate Whitespace(c: char) {
    c in " \t\n\r" || c == 12 as char
  }

  function Stripped(s: string): string {
    if s == "" then "" else (if Whitespace(s[0]) then "" else [s[0]]) + Stripped(s[1..])
  }

  function Unpadded(s: string): string {
    if |s| % 4 == 0 && |s| >= 2 && s[|s| - 2..] == "==" then s[..|s| - 2]
    else if |s| % 4 == 0 && |s| >= 1 && s[|s| - 1] == '=' then s[..|s| - 1]
    else s
  }

  /** The standard alphabet. */
  function StandardValue(c: char): Option<Sextet> {
    if c == '+' then Some(62) else if c == '/' then Some(63) else if c == '-' || c == '_' then None else ValueOf(c)
  }

  /** Characters of the standard alphabet only; stray bits are dropped. */
  function LenientDecode(t: string): Option<seq<Byte>> {
    if forall i | 0 <= i < |t| :: StandardValue(t[i]).Some?
    then Bytes(seq(|t|, i requires 0 <= i < |t| => StandardValue(t[i]).value), false)
    else None
  }

  /** atob's forgiving decode: no whitespace, at most two '=', stray bits dropped. */
  function Atob(s: string): Option<seq<Byte>> {
    LenientDecode(Unpadded(Stripped(s)))
  }

  /** decodeJwt up to JSON.parse. */
  function BrowserText(token: string): Option<Text> {
    var parts := Split(token);
    if |parts| < 2 || parts[1] == "" then None
    else
      var bytes := Atob(Padded(Normalized(parts[1])));
      if bytes.None? then None else Some(Latin1(bytes.value))
  }

  /** The server's text for the same token. */
  function ServerText(token: string): Option<Text> {
    var parts := Split(token);
    if |parts| != 3 || Decode(parts[1]).None? then None else Utf8(Decode(parts[1]).value)
  }

  lemma {:induction false} NothingToStrip(s: string)
    requires forall i | 0 <= i < |s| :: !Whitespace(s[i])
    ensures Stripped(s) == s
  {
    if s != "" {
      NothingToStrip(s[1..]);
      assert s == [s[0]] + s[1..];
    }
  }

  /** Padding what has no padding of its own, and taking it away again. */
  lemma UnpaddedPadded(s: string)
    requires |s| % 4 != 1 && '=' !in s
    ensures Unpadded(Padded(s)) == s
  {
    var n := (4 - |s| % 4) % 4;
    var t := Padded(s);
    assert |t| % 4 == 0 && n <= 2;
    assert t[..|s|] == s;
    if n == 2 {
      assert t[|t| - 2..] == "==";
    } else if n == 1 {
      assert t[|t| - 2..][0] == t[|t| - 2] == s[|s| - 1];
      assert t[|t| - 1] == '=';
    } else if |s| > 0 {
      assert t[|t| - 2..][1] == t[|t| - 1] == s[|s| - 1];
    }
  }

  lemma DecodesStandard(n: string, v: seq<Sextet>)
    requires |n| == |v| && forall i | 0 <= i < |n| :: StandardValue(n[i]) == Some(v[i])
    ensures LenientDecode(n) == Bytes(v, false)
  {
    assert seq(|n|, i requires 0 <= i < |n| => StandardValue(n[i]).value) == v;
  }

  lemma StandardIsPlain(c: char)
    requires StandardValue(c).Some?
    ensures !Whitespace(c) && c != '='
  {
  }

  /** Padding standard base64 as the client does leads atob to the bytes, stray bits or not. */
  lemma AtobPadded(n: string, v: seq<Sextet>)
    requires |n| == |v| && |v| % 4 != 1 && forall i | 0 <= i < |n| :: StandardValue(n[i]) == Some(v[i])
    ensures Atob(Padded(n)) == Bytes(v, false)
  {
    forall i | 0 <= i < |n|
      ensures !Whitespace(n[i]) && n[i] != '='
    {
      StandardIsPlain(n[i]);
    }
    NothingToStrip(Padded(n));
    UnpaddedPadded(n);
    DecodesStandard(n, v);
  }

  /** Whatever the server decodes, the browser decodes to the same bytes. */
  lemma AtobAgrees(s: string)
    requires Decode(s).Some?
    ensures Atob(Padded(Normalized(s))) == Decode(s)
  {
    BytesLength(Values(s));
    AtobPadded(Normalized(s), Values(s));
    LenientAgrees(Values(s));
  }

  lemma {:induction false} Utf8Length(b: seq<Byte>)
    requires Utf8(b).Some?
    ensures |Utf8(b).value| <= |b|
    ensures |Utf8(b).value| == |b| ==> Ascii(b)
    decreases |b|
  {
    if |b| > 0 {
      var rest := b[Width(b)..];
      Utf8Length(rest);
      if |Utf8(b).value| == |b| {
        assert Width(b) == 1;
        assert forall i | 1 <= i < |b| :: b[i] == rest[i - 1];
      }
    }
  }

  lemma {:induction false} AsciiUtf8(b: seq<Byte>)
    requires Ascii(b)
    ensures Utf8(b) == Some(Latin1(b))
    decreases |b|
  {
    if |b| > 0 {
      AsciiUtf8(b[1..]);
      assert Latin1(b) == [b[0] as nat] + Latin1(b[1..]);
    }
  }

  /**
   Where the server finds text, the web client finds the same text exactly when the payload is pure ASCII and not
   empty: the client turns every byte of a longer UTF-8 sequence into a character of its own.
   */
  lemma BrowserAgreesIffAscii(token: string)
    requires ServerText(token).Some?
    ensures BrowserText(token) == ServerText(token) <==> Split(token)[1] != "" && Ascii(Decode(Split(token)[1]).value)
  {
    var payload := Split(token)[1];
    var b := Decode(payload).value;
    AtobAgrees(payload);
    if BrowserText(token) == ServerText(token) {
      Utf8Length(b);
    }
    if Ascii(b) {
      AsciiUtf8(b);
    }
  }

  lemma EncodedNonempty(p: seq<Byte>)
    requires p != []
    ensures Encode(p) != ""
  {
  }

  /** The server's text is what its claims are parsed from. */
  lemma ServerTextIs<C>(token: string, parse: Text -> Option<C>, claims: C)
    ensures ParseJwtPayload(token, parse) == Ok(claims) <==>
            ServerText(token).Some? && parse(ServerText(token).value) == Some(claims)
  {
  }

  const E_ACUTE: seq<Byte> := [0xC3, 0xA9]

  lemma EAcute()
    ensures Utf8(E_ACUTE) == Some([0xE9]) && !Ascii(E_ACUTE)
  {
    var b := E_ACUTE;
    assert Width(b) == 2 && Point(b) == 0xE9;
    var rest: Text := [];
    assert b[2..] == [] && Utf8(b[2..]) == Some(rest);
    assert [0xE9] + rest == [0xE9];
    assert !(b[0] < 0x80);
  }

  /** An instance: of a payload that is one letter beyond ASCII the client makes two. */
  lemma BrowserMisreads(header: seq<Byte>, signature: seq<Byte>, token: string)
    requires token == Compact(header, E_ACUTE, signature)
    ensures ServerText(token) == Some([0xE9]) && BrowserText(token) == Some([0xC3, 0xA9])
  {
    CompactInverts(header, E_ACUTE, signature);
    EAcute();
    AtobAgrees(Split(token)[1]);
    assert Latin1(E_ACUTE) == [0xC3, 0xA9];
    EncodedNonempty(E_ACUTE);
  }

  /** The client asks for no signature: any dotless text, a dot and a payload will do, each byte read as a character. */
  lemma BrowserReadsUnsigned(x: string, p: seq<Byte>)
    requires '.' !in x && p != []
    ensures BrowserText(x + "." + Encode(p)).Some?
    ensures
      var t := BrowserText(x + "." + Encode(p)).value;
      |t| == |p| && forall i | 0 <= i < |p| :: t[i] == p[i]
  {
    EncodingHasNoDot(p);
    var parts := [x, Encode(p)];
    assert parts[1..] == [Encode(p)];
    assert Join(parts) == x + "." + Encode(p);
    JoinSplits(parts);
    DecodeIffEncode(Encode(p), p);
    AtobAgrees(Encode(p));
    EncodedNonempty(p);
  }

  /** Unlike the server, the client drops stray bits at the end. */
  lemma AtobIsLenient(v: seq<Sextet>)
    requires |v| % 4 != 1
    ensures Atob(Padded(Normalized(Chars(v)))) == Bytes(v, false)
  {
    CharsValues(v);
    AtobPadded(Normalized(Chars(v)), v);
  }

  lemma {:induction false} StrippedConcat(a: string, b: string)
    ensures Stripped(a + b) == Stripped(a) + Stripped(b)
  {
    if a == "" {
      assert a + b == b;
    } else {
      StrippedConcat(a[1..], b);
      assert (a + b)[0] == a[0] && (a + b)[1..] == a[1..] + b;
      var first := if Whitespace(a[0]) then "" else [a[0]];
      assert first + (Stripped(a[1..]) + Stripped(b)) == first + Stripped(a[1..]) + Stripped(b);
    }
  }

  /** atob skips ASCII whitespace wherever it stands. */
  lemma AtobSkipsWhitespace(a: string, c: char, b: string)
    requires c == ' ' || c == '\t' || c == '\n' || c == '\r' || c as int == 12
    ensures Atob(a + [c] + b) == Atob(a + b)
  {
    StrippedConcat(a + [c], b);
    StrippedConcat(a, [c]);
    StrippedConcat(a, b);
    assert Whitespace(c);
    assert [c][1..] == "" && Stripped([c]) == "";
    assert Stripped(a) + "" == Stripped(a);
  }

  lemma {:induction false} StrippedKeeps(s: string, c: char)
    requires c in s && !Whitespace(c)
    ensures c in Stripped(s)
  {
    if s[0] != c {
      StrippedKeeps(s[1..], c);
    }
  }

  /** atob itself knows the standard alphabet only; the client has to translate the other one first. */
  lemma AtobRejects(s: string)
    requires '-' in s || '_' in s
    ensures Atob(s).None?
  {
    var c := if '-' in s then '-' else '_';
    StrippedKeeps(s, c);
    var u := Stripped(s);
    var t := Unpadded(u);
    var i :| 0 <= i < |u| && u[i] == c;
    assert i < |t| && t[i] == c;
  }
}
