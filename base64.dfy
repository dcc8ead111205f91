/** Standard padded base64 (section 4 of RFC 4648), as Go's
    `base64.StdEncoding` implements it: `EncodeToString` (used by `hashString`)
    and `DecodeString` (used by `base64ToPNG`). */
module Base64 {
  import opened Wrappers

  /** A member of the 64-character alphabet `A-Z a-z 0-9 + /`. */
  predicate IsAlphabetChar(c: char) {
    ('A' <= c <= 'Z') || ('a' <= c <= 'z') || ('0' <= c <= '9') || c == '+' || c == '/'
  }

  const Pad: char := '='

  /** The alphabet character for a 6-bit value. */
  function EncodeChar(v: int): (c: char)
    requires 0 <= v < 64
    ensures IsAlphabetChar(c)
  {
    if v < 26 then ('A' as int + v) as char
    else if v < 52 then ('a' as int + (v - 26)) as char
    else if v < 62 then ('0' as int + (v - 52)) as char
    else if v == 62 then '+'
    else '/'
  }

  /** The 6-bit value of an alphabet character. */
  function DecodeChar(c: char): (v: int)
    requires IsAlphabetChar(c)
    ensures 0 <= v < 64 && EncodeChar(v) == c
  {
    if 'A' <= c <= 'Z' then c as int - 'A' as int
    else if 'a' <= c <= 'z' then c as int - 'a' as int + 26
    else if '0' <= c <= '9' then c as int - '0' as int + 52
    else if c == '+' then 62
    else 63
  }

  lemma DecodeEncodeChar(v: int)
    requires 0 <= v < 64
    ensures DecodeChar(EncodeChar(v)) == v
  {
  }

  /** A full 3-byte group, read as 24 bits and cut into four 6-bit characters
      (the bit slices of Go's `val>>18`, `val>>12&0x3F`, `val>>6&0x3F`, `val&0x3F`). */
  function EncodeQuantum(b0: byte, b1: byte, b2: byte): string {
    [EncodeChar(b0 / 4), EncodeChar(b0 % 4 * 16 + b1 / 16), EncodeChar(b1 % 16 * 4 + b2 / 64), EncodeChar(b2 % 64)]
  }

  /** The final group of zero, one or two bytes, padded with `=` to four characters. */
  function EncodeTail(s: seq<byte>): string
    requires |s| < 3
  {
    if |s| == 0 then ""
    else if |s| == 1 then [EncodeChar(s[0] / 4), EncodeChar(s[0] % 4 * 16), Pad, Pad]
    else [EncodeChar(s[0] / 4), EncodeChar(s[0] % 4 * 16 + s[1] / 16), EncodeChar(s[1] % 16 * 4), Pad]
  }

  /** The encoding of a whole byte string: full groups, then a final group of
      one or two bytes padded with `=` to four characters. */
  function Encode(s: seq<byte>): (r: string)
    ensures |r| == 4 * ((|s| + 2) / 3)
    decreases |s|
  {
    if |s| < 3 then EncodeTail(s)
    else
      EncodeQuantum(s[0], s[1], s[2]) + Encode(s[3..])
  }

  /** The encoding of `n` bytes holds `(4n + 2) / 3` alphabet characters,
      the 8n data bits rounded up to whole 6-bit characters, and `=` after them. */
  lemma {:induction false} EncodeAlphabet(s: seq<byte>)
    ensures forall i :: 0 <= i < |Encode(s)| ==> (IsAlphabetChar(Encode(s)[i]) <==> i < (4 * |s| + 2) / 3)
    ensures forall i :: (4 * |s| + 2) / 3 <= i < |Encode(s)| ==> Encode(s)[i] == Pad
    decreases |s|
  {
    if |s| >= 3 {
      var q := EncodeQuantum(s[0], s[1], s[2]);
      var rest := Encode(s[3..]);
      assert Encode(s) == q + rest;
      EncodeAlphabet(s[3..]);
      assert forall i :: 4 <= i < |Encode(s)| ==> Encode(s)[i] == rest[i - 4];
    }
  }

  /** Go's decoder skips carriage returns and line feeds anywhere in the input. */
  function StripNewlines(s: string): (r: string)
    ensures |r| <= |s|
  {
    if s == [] then []
    else if s[0] == '\r' || s[0] == '\n' then StripNewlines(s[1..])
    else [s[0]] + StripNewlines(s[1..])
  }

  /** Four 6-bit values back to the three bytes whose 24 bits they hold. */
  function Join(d0: int, d1: int, d2: int, d3: int): seq<byte>
    requires 0 <= d0 < 64 && 0 <= d1 < 64 && 0 <= d2 < 64 && 0 <= d3 < 64
  {
    [d0 * 4 + d1 / 16, d1 % 16 * 16 + d2 / 4, d2 % 4 * 64 + d3]
  }

  /** Four alphabet characters back to three bytes. */
  function DecodeFull(c0: char, c1: char, c2: char, c3: char): seq<byte>
    requires IsAlphabetChar(c0) && IsAlphabetChar(c1) && IsAlphabetChar(c2) && IsAlphabetChar(c3)
  {
    Join(DecodeChar(c0), DecodeChar(c1), DecodeChar(c2), DecodeChar(c3))
  }

  /** The last quantum: four alphabet characters, or `xyz=`, or `xy==`.
      Without strict mode, Go ignores the unused low bits before the padding. */
  function DecodeFinal(c0: char, c1: char, c2: char, c3: char): (r: Option<seq<byte>>)
    ensures r.Some? <==>
              IsAlphabetChar(c0) && IsAlphabetChar(c1) &&
              ((IsAlphabetChar(c2) && (IsAlphabetChar(c3) || c3 == Pad)) || (c2 == Pad && c3 == Pad))
    ensures r.Some? ==> |r.value| == if c2 == Pad then 1 else if c3 == Pad then 2 else 3
  {
    if IsAlphabetChar(c0) && IsAlphabetChar(c1) && IsAlphabetChar(c2) && IsAlphabetChar(c3) then
      Some(DecodeFull(c0, c1, c2, c3))
    else if IsAlphabetChar(c0) && IsAlphabetChar(c1) && IsAlphabetChar(c2) && c3 == Pad then
      Some(Join(DecodeChar(c0), DecodeChar(c1), DecodeChar(c2), 0)[..2])
    else if IsAlphabetChar(c0) && IsAlphabetChar(c1) && c2 == Pad && c3 == Pad then
      Some(Join(DecodeChar(c0), DecodeChar(c1), 0, 0)[..1])
    else None
  }

  /** Decoding of newline-free input: a length that is not a multiple of four,
      a character outside the alphabet, or padding before the last quantum is
      corrupt input. */
  function DecodeQuanta(s: string): (r: Option<seq<byte>>)
    ensures r.Some? ==> |s| % 4 == 0 && 3 * |s| - 8 <= 4 * |r.value| <= 3 * |s|
    ensures r.Some? ==> forall i :: 0 <= i < |s| - 2 ==> IsAlphabetChar(s[i])
    decreases |s|
  {
    if |s| == 0 then Some([])
    else if |s| < 4 then None
    else if |s| == 4 then DecodeFinal(s[0], s[1], s[2], s[3])
    else if IsAlphabetChar(s[0]) && IsAlphabetChar(s[1]) && IsAlphabetChar(s[2]) && IsAlphabetChar(s[3]) then
      match DecodeQuanta(s[4..])
      case None => None
      case Some(rest) =>
        DecodedPrefixShape(s, rest);
        Some(DecodeFull(s[0], s[1], s[2], s[3]) + rest)
    else None
  }

  /** The shape of a decoding one quantum longer than a well-formed one:
      the length stays a multiple of four, the byte count grows by three,
      and the new quantum is all alphabet characters. */
  lemma DecodedPrefixShape(s: string, rest: seq<byte>)
    requires |s| > 4 && IsAlphabetChar(s[0]) && IsAlphabetChar(s[1]) && IsAlphabetChar(s[2]) && IsAlphabetChar(s[3])
    requires |s[4..]| % 4 == 0 && 3 * |s[4..]| - 8 <= 4 * |rest| <= 3 * |s[4..]|
    requires forall i :: 0 <= i < |s[4..]| - 2 ==> IsAlphabetChar(s[4..][i])
    ensures var r := DecodeFull(s[0], s[1], s[2], s[3]) + rest;
            |s| % 4 == 0 && 3 * |s| - 8 <= 4 * |r| <= 3 * |s| &&
            forall i :: 0 <= i < |s| - 2 ==> IsAlphabetChar(s[i])
  {
    assert forall i :: 4 <= i < |s| - 2 ==> s[i] == s[4..][i - 4];
  }

  /** `base64.StdEncoding.DecodeString`: `None` stands for Go's `CorruptInputError`. */
  function Decode(s: string): (r: Option<seq<byte>>)
    ensures r.Some? ==> 4 * |r.value| <= 3 * |s|
  {
    DecodeQuanta(StripNewlines(s))
  }

  /** Cutting three bytes into 6-bit slices and joining them again is the identity. */
  lemma SlicesJoin(b0: byte, b1: byte, b2: byte)
    ensures Join(b0 / 4, b0 % 4 * 16 + b1 / 16, b1 % 16 * 4 + b2 / 64, b2 % 64) == [b0, b1, b2]
  {
    var d1 := b0 % 4 * 16 + b1 / 16;
    var d2 := b1 % 16 * 4 + b2 / 64;
    assert d1 / 16 == b0 % 4 && d1 % 16 == b1 / 16;
    assert d2 / 4 == b1 % 16 && d2 % 4 == b2 / 64;
  }

  /** One full group survives the trip through its four characters. */
  lemma QuantumRoundTrip(b0: byte, b1: byte, b2: byte)
    ensures var q := EncodeQuantum(b0, b1, b2);
            DecodeFull(q[0], q[1], q[2], q[3]) == [b0, b1, b2]
  {
    DecodeEncodeChar(b0 / 4);
    DecodeEncodeChar(b0 % 4 * 16 + b1 / 16);
    DecodeEncodeChar(b1 % 16 * 4 + b2 / 64);
    DecodeEncodeChar(b2 % 64);
    SlicesJoin(b0, b1, b2);
  }

  /** A final group of one or two bytes survives the trip through its padded form. */
  lemma TailRoundTrip(s: seq<byte>)
    requires 1 <= |s| <= 2
    ensures var e := EncodeTail(s); DecodeFinal(e[0], e[1], e[2], e[3]) == Some(s)
  {
    if |s| == 1 {
      OneByteTail(s[0]);
      assert s == [s[0]];
    } else {
      TwoByteTail(s[0], s[1]);
      assert s == [s[0], s[1]];
    }
  }

  /** `xy==` decodes back to the one byte it encodes. */
  lemma OneByteTail(b0: byte)
    ensures var e := EncodeTail([b0]); DecodeFinal(e[0], e[1], e[2], e[3]) == Some([b0])
  {
    var e := EncodeTail([b0]);
    DecodeEncodeChar(b0 / 4);
    DecodeEncodeChar(b0 % 4 * 16);
    SlicesJoin(b0, 0, 0);
    assert !IsAlphabetChar(e[2]) && e[2] == Pad && e[3] == Pad;
    assert Join(b0 / 4, b0 % 4 * 16, 0, 0)[..1] == [b0];
  }

  /** `xyz=` decodes back to the two bytes it encodes. */
  lemma TwoByteTail(b0: byte, b1: byte)
    ensures var e := EncodeTail([b0, b1]); DecodeFinal(e[0], e[1], e[2], e[3]) == Some([b0, b1])
  {
    var e := EncodeTail([b0, b1]);
    DecodeEncodeChar(b0 / 4);
    DecodeEncodeChar(b0 % 4 * 16 + b1 / 16);
    DecodeEncodeChar(b1 % 16 * 4);
    SlicesJoin(b0, b1, 0);
    assert !IsAlphabetChar(e[3]) && e[3] == Pad;
    assert Join(b0 / 4, b0 % 4 * 16 + b1 / 16, b1 % 16 * 4, 0)[..2] == [b0, b1];
  }

  /** A full quantum in front of well-formed input decodes to its three
      bytes in front of that input's bytes. */
  lemma DecodeQuantaPrepend(q: string, rest: string)
    requires |q| == 4 && IsAlphabetChar(q[0]) && IsAlphabetChar(q[1]) && IsAlphabetChar(q[2]) && IsAlphabetChar(q[3])
    requires DecodeQuanta(rest).Some?
    ensures DecodeQuanta(q + rest) == Some(DecodeFull(q[0], q[1], q[2], q[3]) + DecodeQuanta(rest).value)
  {
    var e := q + rest;
    if rest == [] {
      assert e == q;
      assert DecodeQuanta(q) == DecodeFinal(q[0], q[1], q[2], q[3]);
      assert DecodeFinal(q[0], q[1], q[2], q[3]) == Some(DecodeFull(q[0], q[1], q[2], q[3]));
      assert DecodeFull(q[0], q[1], q[2], q[3]) + [] == DecodeFull(q[0], q[1], q[2], q[3]);
    } else {
      assert |rest| >= 4;
      assert e[..4] == q && e[4..] == rest;
    }
  }

  /** A quantum's encoding in front of decodable input decodes to its bytes
      in front of that input's bytes. */
  lemma DecodeQuantumThen(b0: byte, b1: byte, b2: byte, tail: string, t: seq<byte>)
    requires DecodeQuanta(tail) == Some(t)
    ensures DecodeQuanta(EncodeQuantum(b0, b1, b2) + tail) == Some([b0, b1, b2] + t)
  {
    var q := EncodeQuantum(b0, b1, b2);
    DecodeQuantaPrepend(q, tail);
    QuantumRoundTrip(b0, b1, b2);
  }

  /** The first group of a long enough input encodes on its own, in front. */
  lemma EncodeFirstGroup(s: seq<byte>)
    requires |s| >= 3
    ensures Encode(s) == EncodeQuantum(s[0], s[1], s[2]) + Encode(s[3..])
  {
  }

  /** One step of the induction: with the first group in front, a decodable
      encoding of the rest stays decodable. */
  lemma DecodeQuantaEncodeStep(s: seq<byte>, tail: string, e: string)
    requires |s| >= 3
    requires DecodeQuanta(tail) == Some(s[3..])
    requires e == EncodeQuantum(s[0], s[1], s[2]) + tail
    ensures DecodeQuanta(e) == Some(s)
  {
    DecodeQuantumThen(s[0], s[1], s[2], tail, s[3..]);
    assert s == [s[0], s[1], s[2]] + s[3..];
  }

  /** Decoding newline-free quanta inverts encoding. */
  lemma {:induction false} DecodeQuantaEncode(s: seq<byte>)
    ensures DecodeQuanta(Encode(s)) == Some(s)
    decreases |s|
  {
    if |s| == 0 {
    } else if |s| <= 2 {
      assert Encode(s) == EncodeTail(s);
      TailRoundTrip(s);
    } else {
      DecodeQuantaEncode(s[3..]);
      EncodeFirstGroup(s);
      DecodeQuantaEncodeStep(s, Encode(s[3..]), Encode(s));
    }
  }

  /** Input with no line breaks is left alone by the newline filter. */
  lemma {:induction false} StripNewlinesNoop(s: string)
    requires forall i :: 0 <= i < |s| ==> s[i] != '\r' && s[i] != '\n'
    ensures StripNewlines(s) == s
  {
    if s != [] {
      StripNewlinesNoop(s[1..]);
      assert s == [s[0]] + s[1..];
    }
  }

  /** The round trip: Go's decoder gives back exactly the bytes that were encoded. */
  lemma RoundTrip(s: seq<byte>)
    ensures Decode(Encode(s)) == Some(s)
  {
    var e := Encode(s);
    EncodeAlphabet(s);
    assert forall i :: 0 <= i < |e| ==> IsAlphabetChar(e[i]) || e[i] == Pad;
    StripNewlinesNoop(e);
    DecodeQuantaEncode(s);
  }

  /** Encoding loses nothing: distinct byte strings have distinct encodings. */
  lemma EncodeInjective(a: seq<byte>, b: seq<byte>)
    ensures Encode(a) == Encode(b) <==> a == b
  {
    if Encode(a) == Encode(b) {
      RoundTrip(a);
      RoundTrip(b);
    }
  }

  /** The encoding of the first `3 * n` bytes is the first `4 * n` characters
      of the whole encoding: each full group maps to its own four characters. */
  lemma {:induction false} EncodePrefix(s: seq<byte>, n: nat)
    requires 3 * n <= |s|
    ensures 4 * n <= |Encode(s)|
    ensures Encode(s[..3 * n]) == Encode(s)[..4 * n]
  {
    if n > 0 {
      var p := s[..3 * n];
      assert p[3..] == s[3..][..3 * (n - 1)];
      EncodePrefix(s[3..], n - 1);
      assert p[0] == s[0] && p[1] == s[1] && p[2] == s[2];
    }
  }
}
