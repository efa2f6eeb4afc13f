/**
 Signing and presigning, from `crates/logit-aws/src/sigv4.rs`. HMAC-SHA256 and SHA-256 are
 arbitrary functions here: nothing below depends on what they compute.
 */
module Presign {
  import opened Bytes
  import opened Sorting
  import opened CanonicalRequest
  import SignedHeaders
  import opened Wrappers

  datatype Crypto = Crypto(hmac: (bytes, bytes) -> bytes, sha256: bytes -> bytes)

  datatype Signer = Signer(accessKeyId: bytes, secretAccessKey: bytes, region: bytes, service: bytes)

  /** `YYYYMMDDTHHMMSSZ`, as long as the date it starts with. */
  type AmzDate = d: bytes | |d| >= 8 witness [48, 48, 48, 48, 48, 48, 48, 48]

  function DateOf(date: AmzDate): bytes { date[..8] }

  function ALGORITHM(): bytes { Ascii("AWS4-HMAC-SHA256") }
  function TERMINATOR(): bytes { Ascii("aws4_request") }
  function EMPTY_PAYLOAD_SHA256(): bytes {
    Ascii("e3b0c44298fc1c149afbf4c8996fb92427ae41e4649b934ca495991b7852b855")
  }

  function HexLower(v: nat): byte
    requires v < 16
  {
    if v < 10 then 48 + v else 87 + v
  }

  function Hex(b: bytes): bytes {
    if b == [] then [] else [HexLower(b[0] / 16), HexLower(b[0] % 16)] + Hex(b[1..])
  }

  function Scope(signer: Signer, date: AmzDate): bytes {
    DateOf(date) + [SLASH] + signer.region + [SLASH] + signer.service + [SLASH] + TERMINATOR()
  }

  function StringToSign(crypto: Crypto, date: AmzDate, scope: bytes, canonical: bytes): bytes {
    ALGORITHM() + [LF] + date + [LF] + scope + [LF] + Hex(crypto.sha256(canonical))
  }

  /** The key chained through `parts`. */
  function Chained(crypto: Crypto, key: bytes, parts: seq<bytes>): bytes
    decreases parts
  {
    if parts == [] then key else Chained(crypto, crypto.hmac(key, parts[0]), parts[1..])
  }

  function KeyParts(signer: Signer, date: AmzDate): seq<bytes> {
    [DateOf(date), signer.region, signer.service, TERMINATOR()]
  }

  /** The loop chains the four HMACs, from the secret inwards. */
  method SigningKey(crypto: Crypto, signer: Signer, date: AmzDate) returns (key: bytes)
    ensures var secret := Ascii("AWS4") + signer.secretAccessKey;
            key == crypto.hmac(crypto.hmac(crypto.hmac(crypto.hmac(
                     secret, DateOf(date)), signer.region), signer.service), TERMINATOR())
    ensures key == SigningKeyOf(crypto, signer, date)
  {
    key := Ascii("AWS4") + signer.secretAccessKey;
    ghost var first := key;
    var parts := KeyParts(signer, date);
    for i := 0 to |parts|
      invariant Chained(crypto, first, parts) == Chained(crypto, key, parts[i..])
    {
      assert parts[i..][0] == parts[i] && parts[i..][1..] == parts[i + 1..];
      key := crypto.hmac(key, parts[i]);
    }
    FourLinks(crypto, first, parts);
  }

  lemma FourLinks(crypto: Crypto, key: bytes, parts: seq<bytes>)
    requires |parts| == 4
    ensures Chained(crypto, key, parts)
         == crypto.hmac(crypto.hmac(crypto.hmac(crypto.hmac(key, parts[0]), parts[1]), parts[2]), parts[3])
  {
    var k1 := crypto.hmac(key, parts[0]);
    var k2 := crypto.hmac(k1, parts[1]);
    var k3 := crypto.hmac(k2, parts[2]);
    var k4 := crypto.hmac(k3, parts[3]);
    var p1, p2, p3 := parts[1..], parts[2..], parts[3..];
    assert p1[1..] == p2 && p2[1..] == p3 && p3[1..] == [];
    assert Chained(crypto, k3, p3) == Chained(crypto, k4, []);
    assert Chained(crypto, k2, p2) == Chained(crypto, k3, p3);
    assert Chained(crypto, k1, p1) == Chained(crypto, k2, p2);
  }

  function SigningKeyOf(crypto: Crypto, signer: Signer, date: AmzDate): bytes {
    Chained(crypto, Ascii("AWS4") + signer.secretAccessKey, KeyParts(signer, date))
  }

  function Signature(crypto: Crypto, signer: Signer, request: Request, date: AmzDate): bytes {
    var toSign := StringToSign(crypto, date, Scope(signer, date), Canonical(request));
    Hex(crypto.hmac(SigningKeyOf(crypto, signer, date), toSign))
  }

  /** Two lowercase hexadecimal digits a byte, the high one first. */
  ghost predicate IsHex(text: bytes, b: bytes) {
    var digits: bytes := [48, 49, 50, 51, 52, 53, 54, 55, 56, 57, 97, 98, 99, 100, 101, 102];
    && |text| == 2 * |b|
    && forall i | 0 <= i < |b| :: text[2 * i] == digits[b[i] / 16] && text[2 * i + 1] == digits[b[i] % 16]
  }

  lemma {:induction false} HexByPosition(b: bytes)
    ensures IsHex(Hex(b), b)
  {
    if b != [] {
      HexByPosition(b[1..]);
      HexFirst(b[0], Hex(b[1..]), b[1..]);
      HeadTail(b);
    }
  }

  lemma HexFirst(first: byte, rest: bytes, b: bytes)
    requires IsHex(rest, b)
    ensures IsHex([HexLower(first / 16), HexLower(first % 16)] + rest, [first] + b)
  {
    var text, all := [HexLower(first / 16), HexLower(first % 16)] + rest, [first] + b;
    forall i | 0 < i < |all|
      ensures text[2 * i] == rest[2 * (i - 1)] && text[2 * i + 1] == rest[2 * (i - 1) + 1] && all[i] == b[i - 1]
    {
    }
  }

  /** The four lines that are signed: the algorithm, the date, the scope and the hash of the canonical
      request, in hexadecimal. */
  ghost predicate IsSigned(text: bytes, crypto: Crypto, signer: Signer, date: AmzDate, canonical: bytes) {
    var scope := date[..8] + [47] + signer.region + [47] + signer.service + [47] + Ascii("aws4_request");
    exists hash :: IsHex(hash, crypto.sha256(canonical))
                   && text == Ascii("AWS4-HMAC-SHA256") + [10] + date + [10] + scope + [10] + hash
  }

  /** The HMAC of that text under the key chained from the secret, in hexadecimal. */
  ghost predicate IsSignatureOf(signature: bytes, crypto: Crypto, signer: Signer, date: AmzDate, request: Request) {
    var secret := Ascii("AWS4") + signer.secretAccessKey;
    var key := crypto.hmac(crypto.hmac(crypto.hmac(crypto.hmac(
                 secret, date[..8]), signer.region), signer.service), Ascii("aws4_request"));
    exists text :: IsSigned(text, crypto, signer, date, Canonical(request)) && IsHex(signature, crypto.hmac(key, text))
  }

  method Sign(crypto: Crypto, signer: Signer, request: Request, date: AmzDate) returns (signature: bytes)
    ensures signature == Signature(crypto, signer, request, date)
    ensures IsSignatureOf(signature, crypto, signer, date, request)
  {
    var canonical := CanonicalRequestText(request);
    var toSign := StringToSign(crypto, date, Scope(signer, date), canonical);
    var key := SigningKey(crypto, signer, date);
    HexByPosition(crypto.sha256(canonical));
    assert IsSigned(toSign, crypto, signer, date, canonical);
    HexByPosition(crypto.hmac(key, toSign));
    signature := Hex(crypto.hmac(key, toSign));
  }

  /** The request a presigned URL stands for: a bodiless `GET /` with `host` its one signed header. */
  function PresignedRequest(host: bytes, params: seq<Pair>): Request {
    Request(Ascii("GET"), [SLASH], params, [(Ascii("host"), host)], EMPTY_PAYLOAD_SHA256())
  }

  /** The signed `X-Amz-*` parameters, in the order they are written. */
  function AmzParams(signer: Signer, token: Option<bytes>, date: AmzDate, expires: nat): seq<Pair> {
    [(Ascii("X-Amz-Algorithm"), ALGORITHM()),
     (Ascii("X-Amz-Credential"), signer.accessKeyId + [SLASH] + Scope(signer, date)),
     (Ascii("X-Amz-Date"), date),
     (Ascii("X-Amz-Expires"), Ascii(Decimal(expires)))]
    + (match token
       case Some(t) => [(Ascii("X-Amz-Security-Token"), t)]
       case None => [])
    + [(Ascii("X-Amz-SignedHeaders"), Ascii("host"))]
  }

  /** The parameters to sign, pushed one after another. */
  method SignedParams(signer: Signer, query: seq<Pair>, token: Option<bytes>, date: AmzDate, expires: nat)
      returns (params: seq<Pair>)
    ensures params == query + AmzParams(signer, token, date, expires)
    ensures var scope := date[..8] + [47] + signer.region + [47] + signer.service + [47] + Ascii("aws4_request");
            var added := params[|query|..];
            && |added| == (if token.Some? then 6 else 5) && params[..|query|] == query
            && added[0] == (Ascii("X-Amz-Algorithm"), Ascii("AWS4-HMAC-SHA256"))
            && added[1] == (Ascii("X-Amz-Credential"), signer.accessKeyId + [47] + scope)
            && added[2] == (Ascii("X-Amz-Date"), date)
            && added[3] == (Ascii("X-Amz-Expires"), Ascii(Decimal(expires)))
            && (token.Some? ==> added[4] == (Ascii("X-Amz-Security-Token"), token.value))
            && added[|added| - 1] == (Ascii("X-Amz-SignedHeaders"), Ascii("host"))
  {
    params := query;
    params := params + [(Ascii("X-Amz-Algorithm"), ALGORITHM())];
    params := params + [(Ascii("X-Amz-Credential"), signer.accessKeyId + [SLASH] + Scope(signer, date))];
    params := params + [(Ascii("X-Amz-Date"), date)];
    params := params + [(Ascii("X-Amz-Expires"), Ascii(Decimal(expires)))];
    if token.Some? {
      params := params + [(Ascii("X-Amz-Security-Token"), token.value)];
    }
    params := params + [(Ascii("X-Amz-SignedHeaders"), Ascii("host"))];
  }

  /** Every parameter in order, the signature last; and what a verifier makes of them. */
  method PresignQuery(crypto: Crypto, signer: Signer, host: bytes, query: seq<Pair>, token: Option<bytes>,
                      date: AmzDate, expires: nat)
      returns (params: seq<Pair>)
    requires expires < 0x1_0000_0000
    ensures params != []
    ensures params[..|params| - 1] == query + AmzParams(signer, token, date, expires)
    ensures params[|params| - 1].0 == Ascii("X-Amz-Signature")
    ensures Verifies(crypto, signer, host, date, params[..|params| - 1], params[|params| - 1].1)
    ensures IsSignatureOf(params[|params| - 1].1, crypto, signer, date,
                          Request(Ascii("GET"), [47], params[..|params| - 1], [(Ascii("host"), host)],
                                  Ascii("e3b0c44298fc1c149afbf4c8996fb92427ae41e4649b934ca495991b7852b855")))
  {
    var signed := SignedParams(signer, query, token, date, expires);
    var signature := Sign(crypto, signer, PresignedRequest(host, signed), date);
    AnyOrderVerifies(crypto, signer, host, date, signed);
    DropOf(signed, [(Ascii("X-Amz-Signature"), signature)]);
    params := signed + [(Ascii("X-Amz-Signature"), signature)];
  }

  /** Signing the parameters again, in whatever order they arrive, gives the signature. */
  ghost predicate Verifies(crypto: Crypto, signer: Signer, host: bytes, date: AmzDate, signed: seq<Pair>,
                           signature: bytes)
  {
    forall arrived: seq<Pair> | multiset(arrived) == multiset(signed) ::
      Signature(crypto, signer, PresignedRequest(host, arrived), date) == signature
  }

  lemma AnyOrderVerifies(crypto: Crypto, signer: Signer, host: bytes, date: AmzDate, params: seq<Pair>)
    ensures Verifies(crypto, signer, host, date, params,
                     Signature(crypto, signer, PresignedRequest(host, params), date))
  {
    forall arrived: seq<Pair> | multiset(arrived) == multiset(params)
      ensures Signature(crypto, signer, PresignedRequest(host, arrived), date)
           == Signature(crypto, signer, PresignedRequest(host, params), date)
    {
      OrderForgotten(PresignedRequest(host, arrived), PresignedRequest(host, params));
    }
  }

  lemma OneLineVerb()
    ensures LF !in Ascii("GET") && COLON !in Ascii("host") && LF !in Ascii("host")
  {
    assert Ascii("GET") == [71, 69, 84];
    assert Ascii("host") == [104, 111, 115, 116];
  }

  /** The text a presigned URL's signature covers fixes its parameters up to order and its host up to
      white space: any others are another text to hash. */
  lemma OtherParamsOtherText(host: bytes, signed: seq<Pair>, host': bytes, arrived: seq<Pair>)
    ensures Canonical(PresignedRequest(host', arrived)) == Canonical(PresignedRequest(host, signed))
       <==> multiset(arrived) == multiset(signed) && Collapse(host') == Collapse(host)
  {
    OneLineVerb();
    SignedHeaders.OneHeader(Ascii("host"), host);
    SignedHeaders.OneHeader(Ascii("host"), host');
    SignedHeaders.RequestDetermined(PresignedRequest(host', arrived), PresignedRequest(host, signed));
  }
}
