/**
 SigV4's percent-encoding, from `crates/logit-aws/src/sigv4.rs`: letters, digits, `-`, `_`, `.` and
 `~` as they are, every other byte as `%` and two uppercase hexadecimal digits.
 */
module UriEncoding {
  import opened Bytes

  const PERCENT: byte := 37

  predicate Unreserved(b: byte) {
    || 65 <= b <= 90 || 97 <= b <= 122 || 48 <= b <= 57
    || b == 45 || b == 95 || b == 46 || b == 126
  }

  function HexUpper(v: nat): (b: byte)
    requires v < 16
    ensures Unreserved(b)
  {
    if v < 10 then 48 + v else 55 + v
  }

  function EncodeByte(b: byte): bytes {
    if Unreserved(b) then [b] else [PERCENT, HexUpper(b / 16), HexUpper(b % 16)]
  }

  function Encode(s: bytes): bytes {
    if s == [] then [] else EncodeByte(s[0]) + Encode(s[1..])
  }

  method UriEncode(value: bytes) returns (out: bytes)
    ensures out == Encode(value)
  {
    out := [];
    for i := 0 to |value|
      invariant Encode(value) == out + Encode(value[i..])
    {
      var b := value[i];
      assert value[i..][0] == b && value[i..][1..] == value[i + 1..];
      Assoc(out, EncodeByte(b), Encode(value[i + 1..]));
      if Unreserved(b) {
        out := out + [b];
      } else {
        out := out + [PERCENT, HexUpper(b / 16), HexUpper(b % 16)];
      }
    }
    assert value[|value|..] == [];
  }

  function HexOf(b: byte): nat {
    if 48 <= b <= 57 then b - 48 else if 65 <= b <= 70 then b - 55 else 0
  }

  /** Percent-decoding: the inverse. */
  function Decode(s: bytes): bytes
    decreases |s|
  {
    if s == [] then []
    else if s[0] == PERCENT && |s| >= 3 then
      var b: byte := (HexOf(s[1]) * 16 + HexOf(s[2])) % 256;
      [b] + Decode(s[3..])
    else [s[0]] + Decode(s[1..])
  }

  /** Decoding undoes encoding, so no two values encode alike. */
  lemma {:induction false} DecodeEncode(s: bytes)
    ensures Decode(Encode(s)) == s
  {
    if s != [] {
      var b, rest := s[0], Encode(s[1..]);
      var code := EncodeByte(b);
      assert Encode(s) == code + rest;
      DecodeEncode(s[1..]);
      if Unreserved(b) {
        assert (code + rest)[1..] == rest;
      } else {
        assert (code + rest)[3..] == rest;
        assert b == b / 16 * 16 + b % 16;
      }
      assert s == [b] + s[1..];
    }
  }

  lemma EncodeInjective(s: bytes, t: bytes)
    ensures Encode(s) == Encode(t) <==> s == t
  {
    DecodeEncode(s);
    DecodeEncode(t);
  }

  /** An encoded value holds nothing but unreserved bytes and percent signs: no separator. */
  lemma {:induction false} EncodedAlphabet(s: bytes)
    ensures forall b <- Encode(s) :: Unreserved(b) || b == PERCENT
  {
    if s != [] {
      EncodedAlphabet(s[1..]);
    }
  }
}
