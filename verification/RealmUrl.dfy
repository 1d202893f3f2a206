/** The URL guard of the web client's fetcher: realm extraction and the token endpoint. */
module RealmUrl {
  import opened Common

  const REALMS := "/realms/"
  const TOKEN_SEGMENT := "/protocol/openid-connect/token"

  predicate StartsWith(s: string, i: nat, p: string) {
    i + |p| <= |s| && s[i..i + |p|] == p
  }

  /** JavaScript's `includes`. */
  predicate Includes(s: string, p: string) {
    exists i :: 0 <= i <= |s| && StartsWith(s, i, p)
  }

  /** The first slash at or after `j`, or the end. */
  function SegmentEnd(path: string, j: nat): (k: nat)
    requires j <= |path|
    ensures j <= k <= |path| && '/' !in path[j..k] && (k < |path| ==> path[k] == '/')
    decreases |path| - j
  {
    if j == |path| || path[j] == '/' then j else SegmentEnd(path, j + 1)
  }

  /** The capture group when the pattern matches at position `i`. */
  function MatchAt(path: string, i: nat): Option<string> {
    if StartsWith(path, i, REALMS) then
      var j := i + |REALMS|;
      var k := SegmentEnd(path, j);
      if j < k < |path| then Some(path[j..k]) else None
    else None
  }

  function ExtractFrom(path: string, i: nat): Option<string>
    requires i <= |path|
    decreases |path| - i
  {
    if MatchAt(path, i).Some? || i == |path| then MatchAt(path, i) else ExtractFrom(path, i + 1)
  }

  /** The leftmost match of /\/realms\/([^/]+)\//. */
  function ExtractRealm(path: string): Option<string> {
    ExtractFrom(path, 0)
  }

  /** A path segment: what [^/]+ ranges over. */
  predicate IsSegment(r: string) {
    r != "" && '/' !in r
  }

  predicate IsTokenEndpoint(path: string) {
    Includes(path, TOKEN_SEGMENT)
  }

  /** The path refreshSession posts to. */
  function TokenPath(realm: string): string {
    REALMS + realm + TOKEN_SEGMENT
  }

  /** The pattern matches at `i` with capture `r`. */
  ghost predicate Captures(path: string, i: nat, r: string) {
    IsSegment(r) && StartsWith(path, i, REALMS + r + "/")
  }

  lemma MatchIsCapture(path: string, i: nat)
    requires MatchAt(path, i).Some?
    ensures Captures(path, i, MatchAt(path, i).value)
  {
    var j := i + |REALMS|;
    var k := SegmentEnd(path, j);
    assert path[i..k + 1] == path[i..j] + path[j..k] + [path[k]];
  }

  /** The characters of a substring. */
  lemma StartsWithAt(s: string, i: nat, p: string, n: nat)
    requires StartsWith(s, i, p) && n < |p|
    ensures s[i + n] == p[n]
  {
    assert s[i..i + |p|][n] == p[n];
  }

  lemma CaptureParts(path: string, i: nat, r: string)
    requires Captures(path, i, r)
    ensures
      var j, m := i + |REALMS|, i + |REALMS| + |r|;
      m < |path| && StartsWith(path, i, REALMS) && path[j..m] == r && path[m] == '/'
  {
    var p := REALMS + r + "/";
    forall n | 0 <= n < |p|
      ensures path[i + n] == p[n]
    {
      StartsWithAt(path, i, p, n);
    }
    assert path[i..i + |REALMS|] == p[..|REALMS|] == REALMS;
    assert path[i + |REALMS|..i + |REALMS| + |r|] == p[|REALMS|..|REALMS| + |r|] == r;
    assert p[|p| - 1] == '/';
  }

  lemma CaptureIsMatch(path: string, i: nat, r: string)
    requires Captures(path, i, r)
    ensures MatchAt(path, i) == Some(r)
  {
    CaptureParts(path, i, r);
    var j := i + |REALMS|;
    var m := j + |r|;
    var k := SegmentEnd(path, j);
    assert forall n | j <= n < m :: path[n] == r[n - j];
    assert forall n | j <= n < k :: path[n] == path[j..k][n - j];
  }

  lemma MatchAtIffCaptures(path: string, i: nat, r: string)
    ensures MatchAt(path, i) == Some(r) <==> Captures(path, i, r)
  {
    if MatchAt(path, i).Some? {
      MatchIsCapture(path, i);
    }
    if Captures(path, i, r) {
      CaptureIsMatch(path, i, r);
    }
  }

  lemma {:induction false} ExtractFromIsLeftmost(path: string, i: nat)
    requires i <= |path|
    ensures ExtractFrom(path, i).None? ==> forall j, q | i <= j :: !Captures(path, j, q)
    ensures ExtractFrom(path, i).Some? ==>
              exists k ::
                && i <= k <= |path|
                && Captures(path, k, ExtractFrom(path, i).value)
                && (forall j, q | i <= j < k :: !Captures(path, j, q))
    decreases |path| - i
  {
    forall q ensures MatchAt(path, i) == Some(q) <==> Captures(path, i, q) {
      MatchAtIffCaptures(path, i, q);
    }
    if MatchAt(path, i).Some? {
      assert Captures(path, i, ExtractFrom(path, i).value);
    } else if i < |path| {
      ExtractFromIsLeftmost(path, i + 1);
      if ExtractFrom(path, i).Some? {
        var k :| i + 1 <= k <= |path| && Captures(path, k, ExtractFrom(path, i).value)
                 && (forall j, q | i + 1 <= j < k :: !Captures(path, j, q));
        assert forall j, q | i <= j < k :: !Captures(path, j, q);
      }
    }
  }

  /** A realm is found exactly when the path holds /realms/X/, and then it is the leftmost X. */
  lemma ExtractRealmIsLeftmost(path: string, r: string)
    ensures ExtractRealm(path) == Some(r) <==>
            exists k :: 0 <= k <= |path| && Captures(path, k, r) && (forall j, q | 0 <= j < k :: !Captures(path, j, q))
    ensures ExtractRealm(path).None? <==> forall k, q | 0 <= k :: !Captures(path, k, q)
  {
    ExtractFromIsLeftmost(path, 0);
    if k :| 0 <= k <= |path| && Captures(path, k, r) && (forall j, q | 0 <= j < k :: !Captures(path, j, q)) {
      var e := ExtractRealm(path).value;
      var m :| 0 <= m <= |path| && Captures(path, m, e) && (forall j, q | 0 <= j < m :: !Captures(path, j, q));
      assert m == k;
      MatchAtIffCaptures(path, k, r);
      MatchAtIffCaptures(path, k, e);
    }
  }

  /** The refresh URL of any realm name yields that name again, and is recognised as the token endpoint. */
  lemma TokenPathRoundTrip(realm: string)
    requires IsSegment(realm)
    ensures ExtractRealm(TokenPath(realm)) == Some(realm) && IsTokenEndpoint(TokenPath(realm))
  {
    var url := TokenPath(realm);
    var p := REALMS + realm + "/";
    assert TOKEN_SEGMENT[0] == '/';
    assert url[..|p|] == p;
    assert StartsWith(url, 0, p);
    assert Captures(url, 0, realm);
    MatchAtIffCaptures(url, 0, realm);
    var i := |REALMS| + |realm|;
    assert url[i..i + |TOKEN_SEGMENT|] == TOKEN_SEGMENT;
    assert StartsWith(url, i, TOKEN_SEGMENT);
  }

  /** For every realm the guard can extract: no refresh URL can itself start a refresh, or name another realm. */
  lemma RefreshUrlRoundTrip(path: string)
    requires ExtractRealm(path).Some?
    ensures
      var realm := ExtractRealm(path).value;
      IsSegment(realm) && ExtractRealm(TokenPath(realm)) == Some(realm) && IsTokenEndpoint(TokenPath(realm))
  {
    var realm := ExtractRealm(path).value;
    ExtractRealmIsLeftmost(path, realm);
    TokenPathRoundTrip(realm);
  }

  /**
   The comment beside the guard expects every API path to carry a realm, but the realm resource itself,
   /realms/{name} with no further segment, does not match: a 401 there never refreshes.
   */
  lemma RealmResourceHasNoRealm(name: string)
    requires '/' !in name
    ensures ExtractRealm(REALMS + name).None?
  {
    var path := REALMS + name;
    assert forall e | |REALMS| <= e < |path| :: path[e] == name[e - |REALMS|];
    forall k, q | 0 <= k
      ensures !Captures(path, k, q)
    {
      if Captures(path, k, q) {
        CaptureParts(path, k, q);
      }
    }
    ExtractRealmIsLeftmost(path, "");
  }

  /** Whatever stands after /realms/X/ at the start of a path, its realm is X. */
  lemma RequestPathRealm(realm: string, rest: string)
    requires IsSegment(realm)
    ensures ExtractRealm("/realms/" + realm + "/" + rest) == Some(realm)
  {
    var path := "/realms/" + realm + "/" + rest;
    var p := REALMS + realm + "/";
    assert path[0..|p|] == p;
    assert Captures(path, 0, realm);
    MatchAtIffCaptures(path, 0, realm);
  }

  /** The token endpoint is any path that contains its segment, and the refresh goes to the realm's. */
  lemma TokenEndpointIff(path: string, realm: string)
    ensures IsTokenEndpoint(path) <==> exists x, y :: path == x + "/protocol/openid-connect/token" + y
    ensures TokenPath(realm) == "/realms/" + realm + "/protocol/openid-connect/token"
  {
    var p := "/protocol/openid-connect/token";
    if i :| 0 <= i <= |path| && StartsWith(path, i, p) {
      assert path == path[..i] + p + path[i + |p|..];
    }
    if x, y :| path == x + p + y {
      assert path[|x|..|x| + |p|] == p;
      assert StartsWith(path, |x|, p);
    }
  }
}
