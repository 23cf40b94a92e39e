/**
 * Rewriting the password of a captured MQTT CONNECT template with a fresh JWT
 * (app/connect_builder.py): find the JWT inside the CONNECT body, overwrite the
 * 2-byte length field in front of it, splice in the new token and recompute the
 * remaining length.
 */
module Connect {
  import opened Wrappers
  import opened Bytes
  import opened Varint

  const Dot: Byte := 0x2E
  /** The bytes of "eyJ", the base64url encoding of `{"` that opens every JWT header. */
  const EyJ: Bytes := [0x65, 0x79, 0x4A]
  const MinJwtSpan: nat := 16
  const MaxJwtSpan: nat := 4096
  const ConnectHeader: Byte := 0x10

  /** `_is_b64url_byte`: digits, letters, `-`, `_` and `.`. */
  predicate IsB64UrlByte(b: Byte) {
    || 0x30 <= b <= 0x39
    || 0x41 <= b <= 0x5A
    || 0x61 <= b <= 0x7A
    || b == 0x2D || b == 0x5F || b == 0x2E
  }

  predicate StartsEyJ(body: Bytes, i: nat) {
    i + 3 <= |body| && body[i..i + 3] == EyJ
  }

  /** The number of dots in `body[a..b]`. */
  function Dots(body: Bytes, a: nat, b: nat): nat
    requires a <= b <= |body|
    decreases b - a
  {
    if a == b then 0 else Dots(body, a, b - 1) + (if body[b - 1] == Dot then 1 else 0)
  }

  /** `body[e]` cannot extend a signature: the body ends, or a non-base64url byte or a dot follows. */
  predicate SignatureStops(body: Bytes, e: nat) {
    e >= |body| || !IsB64UrlByte(body[e]) || body[e] == Dot
  }

  /**
   * `body[s..e]` is a whole three-part token as the search sees it: it opens with
   * "eyJ", is base64url throughout, holds exactly two dots, and its signature runs
   * as far as it can.
   */
  predicate JwtAt(body: Bytes, s: nat, e: nat) {
    && StartsEyJ(body, s)
    && s + 3 <= e <= |body|
    && (forall k :: s <= k < e ==> IsB64UrlByte(body[k]))
    && Dots(body, s, e) == 2
    && SignatureStops(body, e)
  }

  /** The signature loop: the first index from `j` that is not a base64url non-dot byte. */
  function SigEnd(body: Bytes, j: nat): (r: nat)
    requires j <= |body|
    ensures j <= r <= |body|
    ensures forall k :: j <= k < r ==> IsB64UrlByte(body[k]) && body[k] != Dot
    ensures SignatureStops(body, r)
    decreases |body| - j
  {
    if j < |body| && IsB64UrlByte(body[j]) && body[j] != Dot then SigEnd(body, j + 1) else j
  }

  /** How the scan of one candidate ends: move on to `j`, return the span, or raise. */
  datatype Scan = Next(j: nat) | Hit(e: nat) | Overlong(e: nat)

  /** The verdict on a whole token ending at `e` when the candidate starts at `s`. */
  function Classify(s: nat, e: nat): Scan
    requires s <= e
  {
    if e - s >= MinJwtSpan then (if e - s > MaxJwtSpan then Overlong(e) else Hit(e)) else Next(e)
  }

  /** The inner loop of `_find_jwt_span` at `body[j]`, for the candidate starting at `s`, having seen `dots` dots. */
  function ScanCandidate(body: Bytes, s: nat, j: nat, dots: nat): (r: Scan)
    requires s + 3 <= j <= |body|
    ensures r.Next? ==> j <= r.j <= |body|
    decreases |body| - j
  {
    if j < |body| && IsB64UrlByte(body[j]) then
      if body[j] == Dot && dots + 1 == 2 then
        var e := SigEnd(body, j + 1);
        Classify(s, e)
      else ScanCandidate(body, s, j + 1, if body[j] == Dot then dots + 1 else dots)
    else Next(j)
  }

  /** The result of `_find_jwt_span`: nothing, a span, or the "JWT span too long" error. */
  datatype Search = NotFound | Found(s: nat, e: nat) | SpanTooLong

  /**
   * The outer loop of `_find_jwt_span` from index `i`, as written: after a
   * candidate that does not qualify, the search resumes where that candidate's
   * scan stopped.
   */
  function FindFrom(body: Bytes, i: nat): Search
    decreases |body| - i
  {
    if i >= |body| then NotFound
    else if !StartsEyJ(body, i) then FindFrom(body, i + 1)
    else
      match ScanCandidate(body, i, i + 3, 0)
      case Hit(e) => Found(i, e)
      case Overlong(_) => SpanTooLong
      case Next(j) => FindFrom(body, j)
  }

  /** `_find_jwt_span(body)`, as written; the search `replace_jwt_in_connect` uses. */
  function FindJwtSpan(body: Bytes): Search {
    FindFrom(body, 0)
  }

  /**
   * The outer loop with the resumption corrected: after a candidate that does not
   * qualify, the search moves on by one byte, so no token that starts inside a
   * short candidate is passed over.
   */
  function SearchFrom(body: Bytes, i: nat): Search
    decreases |body| - i
  {
    if i >= |body| then NotFound
    else if !StartsEyJ(body, i) then SearchFrom(body, i + 1)
    else
      match ScanCandidate(body, i, i + 3, 0)
      case Hit(e) => Found(i, e)
      case Overlong(_) => SpanTooLong
      case Next(_) => SearchFrom(body, i + 1)
  }

  /** `_find_jwt_span(body)` with the resumption corrected. */
  function FindJwtSpanCorrected(body: Bytes): Search {
    SearchFrom(body, 0)
  }

  // ---------------------------------------------------------------------------
  // The search against the declarative `JwtAt`.
  // ---------------------------------------------------------------------------

  lemma {:induction false} DotsSplit(body: Bytes, a: nat, b: nat, c: nat)
    requires a <= b <= c <= |body|
    ensures Dots(body, a, c) == Dots(body, a, b) + Dots(body, b, c)
    decreases c - b
  {
    if b < c {
      DotsSplit(body, a, b, c - 1);
    }
  }

  lemma {:induction false} NoDots(body: Bytes, a: nat, b: nat)
    requires a <= b <= |body| && Dots(body, a, b) == 0
    ensures forall k :: a <= k < b ==> body[k] != Dot
    decreases b - a
  {
    if a < b {
      NoDots(body, a, b - 1);
    }
  }

  lemma {:induction false} DotsOfSignature(body: Bytes, a: nat, b: nat)
    requires a <= b <= |body|
    requires forall k :: a <= k < b ==> body[k] != Dot
    ensures Dots(body, a, b) == 0
    decreases b - a
  {
    if a < b {
      DotsOfSignature(body, a, b - 1);
    }
  }

  /** `SigEnd` is the only index at which a dot-free base64url run from `j` stops. */
  lemma SigEndUnique(body: Bytes, j: nat, e: nat)
    requires j <= e <= |body|
    requires forall k :: j <= k < e ==> IsB64UrlByte(body[k]) && body[k] != Dot
    requires SignatureStops(body, e)
    ensures SigEnd(body, j) == e
  {
    var r := SigEnd(body, j);
    assert SignatureStops(body, r) && SignatureStops(body, e);
  }

  lemma EyJDots(body: Bytes, s: nat)
    requires StartsEyJ(body, s)
    ensures Dots(body, s, s + 3) == 0
    ensures forall k :: s <= k < s + 3 ==> IsB64UrlByte(body[k])
  {
    assert body[s] == EyJ[0] && body[s + 1] == EyJ[1] && body[s + 2] == EyJ[2];
    DotsOfSignature(body, s, s + 3);
  }

  /** A span the scan returns (or rejects as too long) is a whole token. */
  lemma {:induction false} ScanSound(body: Bytes, s: nat, j: nat, dots: nat)
    requires StartsEyJ(body, s) && s + 3 <= j <= |body|
    requires forall k :: s <= k < j ==> IsB64UrlByte(body[k])
    requires dots < 2 && Dots(body, s, j) == dots
    ensures var r := ScanCandidate(body, s, j, dots);
      && (r.Hit? ==> JwtAt(body, s, r.e) && MinJwtSpan <= r.e - s <= MaxJwtSpan)
      && (r.Overlong? ==> JwtAt(body, s, r.e) && r.e - s > MaxJwtSpan)
    decreases |body| - j
  {
    if j < |body| && IsB64UrlByte(body[j]) {
      if body[j] == Dot && dots + 1 == 2 {
        var e := SigEnd(body, j + 1);
        DotsOfSignature(body, j + 1, e);
        DotsSplit(body, s, j + 1, e);
      } else {
        ScanSound(body, s, j + 1, if body[j] == Dot then dots + 1 else dots);
      }
    }
  }

  /** When a whole token starts at `s`, the scan finds its end and classifies it by length. */
  lemma {:induction false} ScanComplete(body: Bytes, s: nat, j: nat, dots: nat, e: nat)
    requires JwtAt(body, s, e) && s + 3 <= j <= e
    requires dots < 2 && Dots(body, s, j) == dots
    ensures ScanCandidate(body, s, j, dots) == Classify(s, e)
    decreases |body| - j
  {
    if j == e {
      assert false;
    }
    DotsSplit(body, s, j, e);
    assert IsB64UrlByte(body[j]);
    if body[j] == Dot && dots + 1 == 2 {
      DotsSplit(body, s, j + 1, e);
      NoDots(body, j + 1, e);
      SigEndUnique(body, j + 1, e);
    } else {
      ScanComplete(body, s, j + 1, if body[j] == Dot then dots + 1 else dots, e);
    }
  }

  /** `Found(s, e)` is a whole token of admissible length, at or after the start of the search. */
  lemma {:induction false} FindSound(body: Bytes, i: nat)
    ensures var r := FindFrom(body, i);
      r.Found? ==> i <= r.s && JwtAt(body, r.s, r.e) && MinJwtSpan <= r.e - r.s <= MaxJwtSpan
    decreases |body| - i
  {
    if i < |body| {
      if !StartsEyJ(body, i) {
        FindSound(body, i + 1);
      } else {
        EyJDots(body, i);
        ScanSound(body, i, i + 3, 0);
        var r := ScanCandidate(body, i, i + 3, 0);
        if r.Next? {
          FindSound(body, r.j);
        }
      }
    }
  }

  /**
   * The leftmost "eyJ" decides: if the first candidate from `i` sits at `k` and is a
   * whole token ending at `e`, the search returns it, raises on it, or (when it is
   * shorter than 16 bytes) resumes after it.
   */
  lemma {:induction false} FindLeftmost(body: Bytes, i: nat, k: nat, e: nat)
    requires i <= k && JwtAt(body, k, e)
    requires forall x :: i <= x < k ==> !StartsEyJ(body, x)
    ensures FindFrom(body, i) ==
      match Classify(k, e)
      case Hit(_) => Found(k, e)
      case Overlong(_) => SpanTooLong
      case Next(_) => FindFrom(body, e)
    decreases k - i
  {
    if i < k {
      FindLeftmost(body, i + 1, k, e);
    } else {
      EyJDots(body, k);
      ScanComplete(body, k, k + 3, 0, e);
    }
  }

  /** With no "eyJ" from `i` on, nothing is found. */
  lemma {:induction false} FindNone(body: Bytes, i: nat)
    requires forall x :: i <= x < |body| ==> !StartsEyJ(body, x)
    ensures FindFrom(body, i) == NotFound
    decreases |body| - i
  {
    if i < |body| {
      FindNone(body, i + 1);
    }
  }

  /**
   * Leftmost, not longest: a token of admissible length at the front of the body
   * wins over anything after it, however long, in both searches.
   */
  lemma LeftmostWins(token: Bytes, rest: Bytes)
    requires JwtAt(token + rest, 0, |token|)
    requires MinJwtSpan <= |token| <= MaxJwtSpan
    ensures FindJwtSpan(token + rest) == Found(0, |token|)
    ensures FindJwtSpanCorrected(token + rest) == Found(0, |token|)
  {
    FindLeftmost(token + rest, 0, 0, |token|);
    EyJDots(token + rest, 0);
    ScanComplete(token + rest, 0, 3, 0, |token|);
  }

  /**
   * A CONNECT body in which the as-written search passes over a whole token: the
   * short candidate "eyJ.eyJ.c" at 2 is skipped up to its end at 11, and with it the
   * 23-byte token "eyJ.c.ddd…" that starts at 6. Nothing is found, while the
   * corrected search finds that token.
   */
  lemma AsWrittenSkipsToken()
    ensures var body := HiddenTokenBody();
      && JwtAt(body, 6, 29) && MinJwtSpan <= 29 - 6 <= MaxJwtSpan
      && FindJwtSpan(body) == NotFound
      && FindJwtSpanCorrected(body) == Found(6, 29)
  {
    HiddenShortToken();
    HiddenLongToken();
    HiddenTail();
    ShortTokenHides(HiddenTokenBody());
  }

  /**
   * Any body shaped like `HiddenTokenBody`: a short token at 2 ending at 11 with a
   * whole token of admissible length inside it at 6, and no other "eyJ".
   */
  lemma ShortTokenHides(body: Bytes)
    requires |body| == 29 && JwtAt(body, 2, 11) && JwtAt(body, 6, 29)
    requires !StartsEyJ(body, 0) && !StartsEyJ(body, 1)
    requires !StartsEyJ(body, 3) && !StartsEyJ(body, 4) && !StartsEyJ(body, 5)
    requires forall x :: 11 <= x < |body| ==> !StartsEyJ(body, x)
    ensures FindJwtSpan(body) == NotFound
    ensures FindJwtSpanCorrected(body) == Found(6, 29)
  {
    FindLeftmost(body, 0, 2, 11);
    FindNone(body, 11);
    EyJDots(body, 2);
    ScanComplete(body, 2, 5, 0, 11);
    CorrectedFindsHidden(body);
  }

  /** The corrected half of `ShortTokenHides`: past the short candidate at 2, the token at 6 is found. */
  lemma CorrectedFindsHidden(body: Bytes)
    requires |body| == 29 && JwtAt(body, 2, 11) && JwtAt(body, 6, 29)
    requires !StartsEyJ(body, 0) && !StartsEyJ(body, 1)
    requires !StartsEyJ(body, 3) && !StartsEyJ(body, 4) && !StartsEyJ(body, 5)
    ensures FindJwtSpanCorrected(body) == Found(6, 29)
  {
    EyJDots(body, 2);
    ScanComplete(body, 2, 5, 0, 11);
    EyJDots(body, 6);
    ScanComplete(body, 6, 9, 0, 29);
    assert SearchFrom(body, 6) == Found(6, 29);
    assert SearchFrom(body, 3) == SearchFrom(body, 4) == SearchFrom(body, 5) == SearchFrom(body, 6);
    assert SearchFrom(body, 2) == SearchFrom(body, 3);
    assert SearchFrom(body, 0) == SearchFrom(body, 1) == SearchFrom(body, 2);
  }

  /** Two bytes `00 17`, then "eyJ.eyJ.c." and seventeen 'd' bytes. */
  function HiddenTokenBody(): (body: Bytes)
    ensures |body| == 29
  {
    [0x00, 0x17,
     0x65, 0x79, 0x4A, 0x2E, 0x65, 0x79, 0x4A, 0x2E, 0x63, 0x2E,
     0x64, 0x64, 0x64, 0x64, 0x64, 0x64, 0x64, 0x64, 0x64, 0x64,
     0x64, 0x64, 0x64, 0x64, 0x64, 0x64, 0x64]
  }

  /** The short candidate at 2: "eyJ.eyJ.c", nine bytes, stopped by the dot at 11. */
  lemma HiddenShortToken()
    ensures JwtAt(HiddenTokenBody(), 2, 11)
  {
    var body := HiddenTokenBody();
    assert body[2] == EyJ[0] && body[3] == EyJ[1] && body[4] == EyJ[2];
    assert body[2..5] == EyJ;
    TokenOfParts(body, 2, 5, 9, 11);
  }

  /** The whole token at 6: "eyJ.c." and seventeen 'd' bytes, running to the end. */
  lemma HiddenLongToken()
    ensures JwtAt(HiddenTokenBody(), 6, 29)
  {
    var body := HiddenTokenBody();
    assert body[6] == EyJ[0] && body[7] == EyJ[1] && body[8] == EyJ[2];
    assert body[6..9] == EyJ;
    TokenOfParts(body, 6, 9, 11, 29);
  }

  /**
   * A token from its parts: "eyJ" at `s`, dots at `d1` and `d2`, base64url non-dot
   * bytes everywhere else up to `e`, and a stop at `e`.
   */
  lemma TokenOfParts(body: Bytes, s: nat, d1: nat, d2: nat, e: nat)
    requires StartsEyJ(body, s) && s + 3 <= d1 < d2 < e <= |body|
    requires body[d1] == Dot && body[d2] == Dot && SignatureStops(body, e)
    requires forall k :: s + 3 <= k < e && k != d1 && k != d2 ==> IsB64UrlByte(body[k]) && body[k] != Dot
    ensures JwtAt(body, s, e)
  {
    EyJDots(body, s);
    DotsOfSignature(body, s + 3, d1);
    DotsOfSignature(body, d1 + 1, d2);
    DotsOfSignature(body, d2 + 1, e);
    DotsSplit(body, s, s + 3, d1);
    DotsSplit(body, s, d1, d1 + 1);
    DotsSplit(body, s, d1 + 1, d2);
    DotsSplit(body, s, d2, d2 + 1);
    DotsSplit(body, s, d2 + 1, e);
  }

  /** "eyJ" occurs only at 2 and 6: from 11 on only a dot and 'd' bytes are left. */
  lemma HiddenTail()
    ensures !StartsEyJ(HiddenTokenBody(), 0) && !StartsEyJ(HiddenTokenBody(), 1)
    ensures !StartsEyJ(HiddenTokenBody(), 3) && !StartsEyJ(HiddenTokenBody(), 4) && !StartsEyJ(HiddenTokenBody(), 5)
    ensures forall x :: 11 <= x < |HiddenTokenBody()| ==> !StartsEyJ(HiddenTokenBody(), x)
  {
    var body := HiddenTokenBody();
    NotEyJ(body, 0);
    NotEyJ(body, 1);
    NotEyJ(body, 3);
    NotEyJ(body, 4);
    NotEyJ(body, 5);
    forall x | 11 <= x < |body|
      ensures !StartsEyJ(body, x)
    {
      assert body[x] in {0x2E, 0x64};
      NotEyJ(body, x);
    }
  }

  /** A byte other than 'e' starts no "eyJ". */
  lemma NotEyJ(body: Bytes, x: nat)
    requires x < |body| && body[x] != EyJ[0]
    ensures !StartsEyJ(body, x)
  {
    if x + 3 <= |body| {
      assert body[x..x + 3][0] == body[x];
    }
  }

  /**
   * The corrected search never misses a token: when a whole token of at least 16
   * bytes starts at `k`, the search from any `i <= k` returns a span or raises, and a
   * span it returns is a whole token of admissible length starting between `i` and `k`.
   */
  lemma {:induction false} SearchFindsToken(body: Bytes, i: nat, k: nat, e: nat)
    requires i <= k && JwtAt(body, k, e) && e - k >= MinJwtSpan
    ensures var r := SearchFrom(body, i);
      && !r.NotFound?
      && (r.Found? ==> i <= r.s <= k && JwtAt(body, r.s, r.e) && MinJwtSpan <= r.e - r.s <= MaxJwtSpan)
    decreases k - i
  {
    if !StartsEyJ(body, i) {
      SearchFindsToken(body, i + 1, k, e);
    } else {
      EyJDots(body, i);
      ScanSound(body, i, i + 3, 0);
      if i == k {
        ScanComplete(body, k, k + 3, 0, e);
      } else if ScanCandidate(body, i, i + 3, 0).Next? {
        SearchFindsToken(body, i + 1, k, e);
      }
    }
  }

  /** `Found(s, e)` from the corrected search is a whole token of admissible length, at or after `i`. */
  lemma {:induction false} SearchSound(body: Bytes, i: nat)
    ensures var r := SearchFrom(body, i);
      r.Found? ==> i <= r.s && JwtAt(body, r.s, r.e) && MinJwtSpan <= r.e - r.s <= MaxJwtSpan
    decreases |body| - i
  {
    if i < |body| {
      if !StartsEyJ(body, i) {
        SearchSound(body, i + 1);
      } else {
        EyJDots(body, i);
        ScanSound(body, i, i + 3, 0);
        if ScanCandidate(body, i, i + 3, 0).Next? {
          SearchSound(body, i + 1);
        }
      }
    }
  }

  /** Whatever the as-written search finds, the corrected search finds too, or raises before it. */
  lemma AsWrittenFoundImpliesFound(body: Bytes)
    requires FindJwtSpan(body).Found?
    ensures !FindJwtSpanCorrected(body).NotFound?
    ensures FindJwtSpanCorrected(body).Found? ==> FindJwtSpanCorrected(body).s <= FindJwtSpan(body).s
  {
    FindSound(body, 0);
    var r := FindJwtSpan(body);
    SearchFindsToken(body, 0, r.s, r.e);
  }

  // ---------------------------------------------------------------------------
  // replace_jwt_in_connect
  // ---------------------------------------------------------------------------

  datatype ConnectError =
    | VlqError(cause: ReadError)   // "VLQ out of range" / "VLQ too large"
    | JwtNotFound                  // "JWT not found in CONNECT body"
    | JwtSpanTooLong               // "JWT span too long"
    | NoRoomForLength              // "No room for password length field before JWT"
    | JwtTooLong                   // "JWT too long"

  /** The template without its leading CONNECT header byte, if it has one. */
  function StripHeader(template: Bytes): (r: Bytes)
    ensures |template| > 0 && template[0] == ConnectHeader ==> r == template[1..]
    ensures !(|template| > 0 && template[0] == ConnectHeader) ==> r == template
  {
    if |template| > 0 && template[0] == ConnectHeader then template[1..] else template
  }

  /** The CONNECT body after the (stripped) header and the remaining-length field. */
  function ConnectBody(template: Bytes): Result<Bytes, ConnectError> {
    var tail := StripHeader(template);
    match ReadVlq(tail, 0)
    case Err(e) => Err(VlqError(e))
    case Ok((_, n)) => Ok(tail[n..])
  }

  /** The body with the length field before `s` rewritten and `body[s..e]` replaced by `jwt`. */
  function Splice(body: Bytes, s: nat, e: nat, jwt: Bytes): (r: Bytes)
    requires 2 <= s <= e <= |body| && |jwt| < U16Limit
    ensures |r| == |body| - (e - s) + |jwt|
    ensures r[..s - 2] == body[..s - 2]
    ensures r[s - 2..s] == EncU16(|jwt|)
    ensures r[s..s + |jwt|] == jwt
    ensures r[s + |jwt|..] == body[e..]
  {
    body[..s - 2] + EncU16(|jwt|) + jwt + body[e..]
  }

  /**
   * `replace_jwt_in_connect(template, new_jwt)`: the remaining length and body of the
   * rewritten CONNECT, without the header byte. The remaining length read from the
   * template is not checked against the bytes that follow it.
   */
  function ReplaceJwtInConnect(template: Bytes, jwt: Bytes): (r: Result<Bytes, ConnectError>)
  {
    var body :- ConnectBody(template);
    FindSound(body, 0);
    SpliceFound(body, FindJwtSpan(body), jwt)
  }

  /**
   * The rewrite given the search's verdict on `body`: the search's own error, no
   * room for the length field, a token too long for it, or the spliced body
   * behind its new remaining length.
   */
  function SpliceFound(body: Bytes, sr: Search, jwt: Bytes): (r: Result<Bytes, ConnectError>)
    requires sr.Found? ==> sr.s <= sr.e <= |body|
  {
    match sr
    case NotFound => Err(JwtNotFound)
    case SpanTooLong => Err(JwtSpanTooLong)
    case Found(s, e) =>
      if s < 2 then Err(NoRoomForLength)
      else if |jwt| > 0xFFFF then Err(JwtTooLong)
      else
        var body' := Splice(body, s, e, jwt);
        Ok(Encode(|body'|) + body')
  }

  /** The rewrite with the corrected search in place of `_find_jwt_span`. */
  function ReplaceJwtInConnectCorrected(template: Bytes, jwt: Bytes): (r: Result<Bytes, ConnectError>)
  {
    var body :- ConnectBody(template);
    SearchSound(body, 0);
    SpliceFound(body, FindJwtSpanCorrected(body), jwt)
  }

  /** The CONNECT template 10 1D around `HiddenTokenBody`: header, remaining length 29, body. */
  function HiddenTemplate(): (t: Bytes)
    ensures |t| == 31
  {
    [ConnectHeader, 0x1D] + HiddenTokenBody()
  }

  /** The header and the one-byte remaining length come off, leaving the 29-byte body. */
  lemma HiddenTemplateBody()
    ensures ConnectBody(HiddenTemplate()) == Ok(HiddenTokenBody())
  {
    var body := HiddenTokenBody();
    assert Encode(29) == [0x1D];
    assert StripHeader(HiddenTemplate()) == Encode(29) + body;
    VlqRoundTrip(29, body);
  }

  /**
   * On the template whose only token hides inside a short candidate, the rewrite as
   * written fails with "JWT not found" for every replacement token; with the corrected
   * search it succeeds and puts the new token where the old one was.
   */
  lemma AsWrittenRewriteFails(jwt: Bytes)
    ensures ReplaceJwtInConnect(HiddenTemplate(), jwt) == Err(JwtNotFound)
    ensures |jwt| <= 0xFFFF ==> ReplaceJwtInConnectCorrected(HiddenTemplate(), jwt).Ok?
    ensures |jwt| <= 0xFFFF ==>
      var out := ReplaceJwtInConnectCorrected(HiddenTemplate(), jwt).value;
      ParseRewritten(out) == Some(Splice(HiddenTokenBody(), 6, 29, jwt))
  {
    HiddenTemplateBody();
    AsWrittenSkipsToken();
    RewritesDiverge(HiddenTemplate(), HiddenTokenBody(), 6, 29, jwt);
  }

  /** Where only the corrected search finds a token, only the corrected rewrite succeeds. */
  lemma RewritesDiverge(template: Bytes, body: Bytes, s: nat, e: nat, jwt: Bytes)
    requires ConnectBody(template) == Ok(body)
    requires FindJwtSpan(body) == NotFound
    requires FindJwtSpanCorrected(body) == Found(s, e) && 2 <= s
    ensures ReplaceJwtInConnect(template, jwt) == Err(JwtNotFound)
    ensures |jwt| <= 0xFFFF ==> ReplaceJwtInConnectCorrected(template, jwt).Ok?
    ensures |jwt| <= 0xFFFF ==>
      var out := ReplaceJwtInConnectCorrected(template, jwt).value;
      s <= e <= |body| && ParseRewritten(out) == Some(Splice(body, s, e, jwt))
  {
    SearchSound(body, 0);
    if |jwt| <= 0xFFFF {
      var body' := Splice(body, s, e, jwt);
      var out := Encode(|body'|) + body';
      assert out[0..|Encode(|body'|)|] == Encode(|body'|);
      ReadEncoded(out, 0, |body'|, None);
      assert out[|Encode(|body'|)|..] == body';
    }
  }

  /** Reads a rewritten CONNECT back: the remaining length and the body it announces. */
  function ParseRewritten(out: Bytes): Option<Bytes> {
    match Read(out, 0, None)
    case Err(_) => None
    case Ok((len, n)) => if n + len == |out| then Some(out[n..]) else None
  }

  /**
   * The rewrite, stated against its partner `ParseRewritten`: the output announces
   * exactly its own body, which keeps every byte of the old body except the length
   * field and the token, and carries the new token at the old token's start.
   */
  lemma ReplaceSpec(template: Bytes, jwt: Bytes)
    requires ReplaceJwtInConnect(template, jwt).Ok?
    ensures ConnectBody(template).Ok?
    ensures var body := ConnectBody(template).value;
      var out := ReplaceJwtInConnect(template, jwt).value;
      && FindJwtSpan(body).Found?
      && var (s, e) := (FindJwtSpan(body).s, FindJwtSpan(body).e);
      && 2 <= s
      && JwtAt(body, s, e)
      && ParseRewritten(out).Some?
      && var body' := ParseRewritten(out).value;
      && |body'| == |body| - (e - s) + |jwt|
      && body'[..s - 2] == body[..s - 2]
      && body'[s - 2..s] == EncU16(|jwt|)
      && body'[s..s + |jwt|] == jwt
      && body'[s + |jwt|..] == body[e..]
  {
    var body := ConnectBody(template).value;
    FindSound(body, 0);
    var sr := FindJwtSpan(body);
    var body' := Splice(body, sr.s, sr.e, jwt);
    var out := Encode(|body'|) + body';
    assert out[0..|Encode(|body'|)|] == Encode(|body'|);
    ReadEncoded(out, 0, |body'|, None);
    assert out[|Encode(|body'|)|..] == body';
  }

  /** The error exits of `replace_jwt_in_connect`, each with its own error, and success otherwise. */
  lemma ReplaceErrors(template: Bytes, jwt: Bytes)
    ensures ConnectBody(template).Err? ==>
      ReplaceJwtInConnect(template, jwt) == Err(ConnectBody(template).error)
    ensures ConnectBody(template).Ok? ==>
      var body := ConnectBody(template).value;
      && (FindJwtSpan(body).NotFound? ==> ReplaceJwtInConnect(template, jwt) == Err(JwtNotFound))
      && (FindJwtSpan(body).SpanTooLong? ==> ReplaceJwtInConnect(template, jwt) == Err(JwtSpanTooLong))
      && (FindJwtSpan(body).Found? && FindJwtSpan(body).s < 2 ==>
            ReplaceJwtInConnect(template, jwt) == Err(NoRoomForLength))
      && (FindJwtSpan(body).Found? && FindJwtSpan(body).s >= 2 && |jwt| > 0xFFFF ==>
            ReplaceJwtInConnect(template, jwt) == Err(JwtTooLong))
      && (FindJwtSpan(body).Found? && FindJwtSpan(body).s >= 2 && |jwt| <= 0xFFFF ==>
            ReplaceJwtInConnect(template, jwt).Ok?)
  {
  }

  /** A template whose remaining-length field cannot be read is refused with the reader's error. */
  lemma ConnectBodyErrors(template: Bytes)
    ensures ConnectBody(template).Err? <==> ReadVlq(StripHeader(template), 0).Err?
  {
  }

  /**
   * Putting back the token that is already there, behind a length field that already
   * matches it, leaves the body unchanged: only the remaining length is re-encoded.
   */
  lemma ReplaceSameToken(template: Bytes, s: nat, e: nat)
    requires ConnectBody(template).Ok?
    requires 2 <= s <= e <= |ConnectBody(template).value| && e - s < U16Limit
    requires var body := ConnectBody(template).value;
      && FindJwtSpan(body) == Found(s, e)
      && body[s - 2..s] == EncU16(e - s)
    ensures var body := ConnectBody(template).value;
      ReplaceJwtInConnect(template, body[s..e]) == Ok(Encode(|body|) + body)
  {
    var body := ConnectBody(template).value;
    var jwt := body[s..e];
    var body' := Splice(body, s, e, jwt);
    assert body' == body[..s - 2] + body[s - 2..s] + body[s..e] + body[e..];
    Quarters(body, s - 2, s, e);
    assert ReplaceJwtInConnect(template, jwt) == Ok(Encode(|body'|) + body');
  }

  lemma Quarters(b: Bytes, i: nat, j: nat, k: nat)
    requires i <= j <= k <= |b|
    ensures b[..i] + b[i..j] + b[j..k] + b[k..] == b
  {
  }

  /**
   * A 20-byte token replaced by a 24-byte one: the length field goes from 00 14 to
   * 00 18 and the body grows by four bytes.
   */
  lemma LongerToken(template: Bytes, jwt: Bytes, s: nat, e: nat)
    requires ConnectBody(template).Ok?
    requires FindJwtSpan(ConnectBody(template).value) == Found(s, e)
    requires 2 <= s && e - s == 20 && |jwt| == 24
    ensures ReplaceJwtInConnect(template, jwt).Ok?
    ensures var out := ReplaceJwtInConnect(template, jwt).value;
      && ParseRewritten(out).Some?
      && |ParseRewritten(out).value| == |ConnectBody(template).value| + 4
      && 2 <= s <= |ParseRewritten(out).value|
      && ParseRewritten(out).value[s - 2..s] == [0x00, 0x18]
  {
    assert ReplaceJwtInConnect(template, jwt).Ok?;
    ReplaceSpec(template, jwt);
    assert EncU16(24) == [0x00, 0x18];
  }
}
