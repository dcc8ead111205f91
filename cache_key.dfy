/** The Redis key of a request: `getRedisKey` and `hashString` of api/index.go.
    SHA-256 (FIPS 180-4) is not modelled bit by bit: every function here takes
    it as a parameter that maps a string to some 32-byte digest. */
module CacheKey {
  import opened Wrappers
  import Base64

  /** A SHA-256 digest. */
  type Digest = d: seq<byte> | |d| == 32 witness [0, 0, 0, 0, 0, 0, 0, 0, 0, 0, 0, 0, 0, 0, 0, 0,
                                                   0, 0, 0, 0, 0, 0, 0, 0, 0, 0, 0, 0, 0, 0, 0, 0]

  /** Go's `sha256.Sum` over the bytes of a string (a Go string is its bytes). */
  type Hasher = string -> Digest

  /** Characters kept from the encoded digest. */
  const KeyLength: nat := 16

  /** `hashString`: the padded base64 text of the digest, cut to 16 characters.
      The encoding is 44 characters long, so the cut is always in range. */
  function HashString(sha256: Hasher, input: string): (key: string)
    ensures |key| == KeyLength
  {
    var encoded := Base64.Encode(sha256(input));
    encoded[..KeyLength]
  }

  /** `getRedisKey`: the key of the pair `(base, overlay)`. */
  function RedisKey(sha256: Hasher, base: string, overlay: string): (key: string)
    ensures |key| == KeyLength
  {
    HashString(sha256, base + ":" + overlay)
  }

  /** A digest encodes to 44 characters whose only `=` is the last one:
      32 bytes are ten full groups and a final group of two bytes. */
  lemma DigestEncoding(d: Digest)
    ensures |Base64.Encode(d)| == 44
    ensures forall i :: 0 <= i < 43 ==> Base64.IsAlphabetChar(Base64.Encode(d)[i])
    ensures Base64.Encode(d)[43] == Base64.Pad
  {
    Base64.EncodeAlphabet(d);
  }

  /** The key is the encoding of the digest's first 12 bytes: 16 characters
      hold exactly 96 bits, and the cut falls on a group boundary. */
  lemma KeyEncodesDigestPrefix(sha256: Hasher, input: string)
    ensures HashString(sha256, input) == Base64.Encode(sha256(input)[..12])
  {
    Base64.EncodePrefix(sha256(input), 4);
  }

  /** Every key is 16 characters of the base64 alphabet and never holds padding. */
  lemma KeyAlphabet(sha256: Hasher, base: string, overlay: string)
    ensures var key := RedisKey(sha256, base, overlay);
            |key| == 16 &&
            (forall i :: 0 <= i < |key| ==> Base64.IsAlphabetChar(key[i])) &&
            Base64.Pad !in key
  {
    var input := base + ":" + overlay;
    var d := sha256(input);
    KeyEncodesDigestPrefix(sha256, input);
    Base64.EncodeAlphabet(d[..12]);
  }

  /** Two requests share a key exactly when the first 12 bytes of their
      digests agree; nothing else about the inputs enters the key. */
  lemma KeyDeterminedByDigestPrefix(sha256: Hasher, base1: string, overlay1: string, base2: string, overlay2: string)
    ensures RedisKey(sha256, base1, overlay1) == RedisKey(sha256, base2, overlay2)
        <==> sha256(base1 + ":" + overlay1)[..12] == sha256(base2 + ":" + overlay2)[..12]
  {
    KeyEncodesDigestPrefix(sha256, base1 + ":" + overlay1);
    KeyEncodesDigestPrefix(sha256, base2 + ":" + overlay2);
    Base64.EncodeInjective(sha256(base1 + ":" + overlay1)[..12], sha256(base2 + ":" + overlay2)[..12]);
  }

  /** The join is not escaped: a `:` may sit in either field, so moving the
      text between two colons from the base to the overlay gives the same
      input, and the same key, for every hash function. */
  lemma RedisKeyJoinCollides(sha256: Hasher, a: string, b: string, c: string)
    ensures RedisKey(sha256, a + ":" + b, c) == RedisKey(sha256, a, b + ":" + c)
  {
    assert (a + ":" + b) + ":" + c == a + ":" + (b + ":" + c);
  }

  /** One character of the escaped base: `:` and `\\` get a `\\` in front. */
  function EscapeChar(ch: char): (r: string)
    ensures 1 <= |r| <= 2 && r[0] != ':' && r[|r| - 1] == ch
    ensures r[0] == '\\' <==> ch == ':' || ch == '\\'
  {
    if ch == ':' || ch == '\\' then ['\\', ch] else [ch]
  }

  /** The hash input the handler evidently means: the base URL with each
      `:` and `\\` escaped, then the separator, then the overlay, so that the
      first unescaped `:` ends the base. */
  function EscapedJoin(base: string, overlay: string): (r: string)
    ensures |r| > |base| + |overlay|
    ensures r[0] == ':' <==> base == []
  {
    if base == [] then ":" + overlay
    else EscapeChar(base[0]) + EscapedJoin(base[1..], overlay)
  }

  /** The key the handler evidently means, over the escaped join. */
  function EscapedRedisKey(sha256: Hasher, base: string, overlay: string): (key: string)
    ensures |key| == KeyLength
  {
    HashString(sha256, EscapedJoin(base, overlay))
  }

  /** An escaped character is recognised from the front of any text it
      starts: the character and the rest are determined. */
  lemma EscapeCharPeel(x: char, y: char, r1: string, r2: string)
    requires EscapeChar(x) + r1 == EscapeChar(y) + r2
    ensures x == y && r1 == r2
  {
    var e1, e2 := EscapeChar(x), EscapeChar(y);
    assert (e1 + r1)[0] == e1[0] && (e2 + r2)[0] == e2[0];
    assert |e1| == |e2|;
    assert (e1 + r1)[|e1| - 1] == x && (e2 + r2)[|e2| - 1] == y;
    assert r1 == (e1 + r1)[|e1|..] && r2 == (e2 + r2)[|e2|..];
  }

  /** The escaped join is injective: the hash input determines the pair. */
  lemma {:induction false} EscapedJoinInjective(a1: string, c1: string, a2: string, c2: string)
    requires EscapedJoin(a1, c1) == EscapedJoin(a2, c2)
    ensures a1 == a2 && c1 == c2
    decreases |a1|
  {
    if a1 == [] && a2 == [] {
      assert c1 == EscapedJoin(a1, c1)[1..] && c2 == EscapedJoin(a2, c2)[1..];
    } else if a1 != [] && a2 != [] {
      EscapeCharPeel(a1[0], a2[0], EscapedJoin(a1[1..], c1), EscapedJoin(a2[1..], c2));
      EscapedJoinInjective(a1[1..], c1, a2[1..], c2);
      assert a1 == [a1[0]] + a1[1..] && a2 == [a2[0]] + a2[1..];
    }
  }

  /** With the escaped join, two different pairs hash different inputs, so
      they can share a key only through a collision of the digest prefix. */
  lemma EscapedKeySeparatesPairs(sha256: Hasher, base1: string, overlay1: string, base2: string, overlay2: string)
    requires base1 != base2 || overlay1 != overlay2
    ensures EscapedJoin(base1, overlay1) != EscapedJoin(base2, overlay2)
    ensures EscapedRedisKey(sha256, base1, overlay1) == EscapedRedisKey(sha256, base2, overlay2)
        <==> sha256(EscapedJoin(base1, overlay1))[..12] == sha256(EscapedJoin(base2, overlay2))[..12]
  {
    var j1, j2 := EscapedJoin(base1, overlay1), EscapedJoin(base2, overlay2);
    if j1 == j2 {
      EscapedJoinInjective(base1, overlay1, base2, overlay2);
    }
    KeyEncodesDigestPrefix(sha256, j1);
    KeyEncodesDigestPrefix(sha256, j2);
    Base64.EncodeInjective(sha256(j1)[..12], sha256(j2)[..12]);
  }
}
