/**
 * The JWT holder of app/token_manager.py: it keeps the token the upstream
 * CONNECT carries, reads its `exp` claim, and stops handing the token out once
 * it is within the renewal margin of expiring. Base64url decoding and JSON
 * parsing of the claims segment are a parameter (`claim`); the wall clock is the
 * argument `now`.
 */
module Tokens {
  import opened Wrappers
  import opened Bytes
  import Text

  /** The default renewal margin, in seconds. */
  const DefaultMargin: int := 120

  /**
   * The base64url text `_b64url_pad` pads: `s` followed by just enough `=` to
   * make its length a multiple of four.
   */
  function Padded(s: string): (r: string)
    ensures |r| % 4 == 0
    ensures s <= r && |r| - |s| < 4
    ensures forall k :: |s| <= k < |r| ==> r[k] == '='
  {
    var n := (4 - |s| % 4) % 4;
    s + seq(n, _ => '=')
  }

  /** Text that is already a multiple of four long gets no padding. */
  lemma PaddedIdempotent(s: string)
    ensures Padded(Padded(s)) == Padded(s)
  {
    var p := Padded(s);
    assert p + [] == p;
  }

  /** `_b64url_pad`: the padded text, UTF-8 encoded. */
  function B64UrlPad(s: string): (r: Bytes)
    ensures |r| >= |Padded(s)|
  {
    Utf8(Padded(s))
  }

  /**
   * `_jwt_exp`: the `exp` claim of a three-segment token, read from the middle
   * segment; `None` for any other number of segments. `claim` is the decode of
   * the padded segment and stands for `None` on any exception or missing claim.
   */
  function JwtExp(jwt: string, claim: Bytes -> Option<int>): (r: Option<int>)
    ensures |Text.Split(jwt, '.')| != 3 ==> r.None?
  {
    var parts := Text.Split(jwt, '.');
    if |parts| != 3 then None else claim(B64UrlPad(parts[1]))
  }

  /** A token with other than two dots never yields an expiry, whatever its content. */
  lemma JwtExpNeedsTwoDots(jwt: string, claim: Bytes -> Option<int>)
    requires multiset(jwt)['.'] != 2
    ensures JwtExp(jwt, claim).None?
  {
    Text.SplitCount(jwt, '.');
  }

  /** For `header.payload.signature`, the expiry is read from exactly the payload segment. */
  lemma JwtExpReadsPayload(header: string, payload: string, signature: string, claim: Bytes -> Option<int>)
    requires '.' !in header && '.' !in payload && '.' !in signature
    ensures JwtExp(header + "." + payload + "." + signature, claim) == claim(B64UrlPad(payload))
  {
    var ps := [header, payload, signature];
    Text.JoinCons(payload, [signature], '.');
    Text.JoinCons(header, [payload, signature], '.');
    assert [payload] + [signature] == ps[1..];
    assert [header] + ps[1..] == ps;
    Text.JoinSplit(ps, '.');
    assert header + "." + payload + "." + signature == Text.Join(ps, '.');
  }

  /** The holder's state: the token (if any), its expiry (if known) and the margin. */
  datatype TokenState = TokenState(jwt: Option<string>, exp: Option<int>, margin: int)

  /** Python truthiness of an optional string: present and non-empty. */
  predicate Truthy(s: Option<string>) {
    s.Some? && |s.value| > 0
  }

  /**
   * `__init__`: the expiry is read only from a truthy initial token; an absent or
   * empty one leaves it unknown.
   */
  function Init(initial: Option<string>, margin: int, claim: Bytes -> Option<int>): (st: TokenState)
    ensures st.jwt == initial && st.margin == margin
    ensures !Truthy(initial) ==> st.exp.None?
    ensures Truthy(initial) ==> st.exp == JwtExp(initial.value, claim)
  {
    TokenState(initial, if Truthy(initial) then JwtExp(initial.value, claim) else None, margin)
  }

  /** `set`: store the token and re-read its expiry, keeping the margin. */
  function SetToken(st: TokenState, jwt: string, claim: Bytes -> Option<int>): (r: TokenState)
    ensures r.jwt == Some(jwt) && r.margin == st.margin
    ensures r.exp == JwtExp(jwt, claim)
  {
    TokenState(Some(jwt), JwtExp(jwt, claim), st.margin)
  }

  /**
   * `get` at time `now`: the stored token, withheld when there is none, when it
   * is empty, and when its known expiry is no more than the margin away. A
   * token whose expiry is unknown is handed out for ever.
   */
  function GetToken(st: TokenState, now: int): (r: Option<string>)
    ensures r.Some? <==> Truthy(st.jwt) && (st.exp.None? || st.exp.value - now > st.margin)
    ensures r.Some? ==> r == st.jwt
  {
    if !Truthy(st.jwt) then None
    else if st.exp.None? then st.jwt
    else if st.exp.value - now <= st.margin then None
    else st.jwt
  }

  /** `info`: whether a truthy token is held, and its expiry. */
  datatype Info = Info(hasJwt: bool, exp: Option<int>)

  function GetInfo(st: TokenState): (r: Info)
    ensures r.hasJwt <==> Truthy(st.jwt)
    ensures r.hasJwt <==> GetToken(st, if st.exp.Some? then st.exp.value - st.margin - 1 else 0).Some?
    ensures r.exp == st.exp
  {
    Info(Truthy(st.jwt), st.exp)
  }

  /** Once a token is withheld for nearing expiry, it stays withheld at every later time. */
  lemma WithheldStaysWithheld(st: TokenState, now: int, later: int)
    requires now <= later && Truthy(st.jwt) && GetToken(st, now).None?
    ensures GetToken(st, later).None?
  {
  }

  /**
   * With the default margin, a token expiring in 100 seconds is already withheld
   * and one expiring in 500 seconds is handed out.
   */
  lemma MarginExamples(jwt: string, now: int)
    requires |jwt| > 0
    ensures GetToken(TokenState(Some(jwt), Some(now + 100), DefaultMargin), now).None?
    ensures GetToken(TokenState(Some(jwt), Some(now + 500), DefaultMargin), now) == Some(jwt)
  {
  }

  /**
   * `set` followed by `get`: the new token is handed out exactly when its own
   * expiry allows; the previous token and expiry play no part.
   */
  lemma SetThenGet(st: TokenState, jwt: string, claim: Bytes -> Option<int>, now: int)
    ensures var e := JwtExp(jwt, claim);
      GetToken(SetToken(st, jwt, claim), now) ==
        if |jwt| > 0 && (e.None? || e.value - now > st.margin) then Some(jwt) else None
  {
  }
}
