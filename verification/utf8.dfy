/** UTF-8, as the host runtime produces it when `send` is given a string: every Unicode
    scalar value becomes one to four bytes. The strict decoder is the partner against which
    the encoder is checked: it accepts exactly the byte strings the encoder can produce. */
module Utf8 {
  import opened Optional

  type Byte = x: int | 0 <= x < 256

  /** A Unicode scalar value: a code point that is not a surrogate. */
  type Scalar = c: int | 0 <= c < 0x11_0000 && !(0xD800 <= c < 0xE000)

  predicate IsContinuation(b: Byte) {
    0x80 <= b < 0xC0
  }

  /** The six payload bits a continuation byte carries. */
  function Bits(b: Byte): int {
    b as int - 0x80
  }

  /** The UTF-8 byte sequence of one scalar value. */
  function EncodeScalar(c: Scalar): (r: seq<Byte>)
    ensures 1 <= |r| <= 4
    ensures |r| == 1 <==> c < 0x80
    ensures forall i :: 1 <= i < |r| ==> IsContinuation(r[i])
  {
    var c1 := c / 64;
    var c2 := c1 / 64;
    if c < 0x80 then
      [c]
    else if c < 0x800 then
      [0xC0 + c1, 0x80 + c % 64]
    else if c < 0x1_0000 then
      [0xE0 + c2, 0x80 + c1 % 64, 0x80 + c % 64]
    else
      [0xF0 + c2 / 64, 0x80 + c2 % 64, 0x80 + c1 % 64, 0x80 + c % 64]
  }

  /** The UTF-8 encoding of a whole string. */
  function Encode(s: seq<Scalar>): (r: seq<Byte>)
    ensures |s| <= |r| <= 4 * |s|
  {
    if |s| == 0 then [] else EncodeScalar(s[0]) + Encode(s[1..])
  }

  /** A string of ASCII characters is sent as exactly its character codes. */
  lemma {:induction false} AsciiEncodesToItself(s: seq<Scalar>)
    requires forall i :: 0 <= i < |s| ==> s[i] < 0x80
    ensures Encode(s) == s
  {
    if |s| > 0 {
      AsciiEncodesToItself(s[1..]);
      assert s == [s[0]] + s[1..];
    }
  }

  /** One scalar value read from the front of a byte string, and how many bytes it took. */
  datatype Prefix = Prefix(scalar: Scalar, size: nat)

  /** Reads the first scalar value of `bs`, refusing truncated sequences, stray continuation
      bytes, overlong forms, surrogates and values beyond U+10FFFF. */
  function DecodeScalar(bs: seq<Byte>): (r: Option<Prefix>)
    ensures r.Some? ==> 1 <= r.value.size <= 4 && r.value.size <= |bs|
  {
    if |bs| == 0 then None
    else
      var b0: int := bs[0];
      if b0 < 0x80 then Some(Prefix(b0, 1))
      else if b0 < 0xC0 then None
      else if b0 < 0xE0 then
        if |bs| < 2 || !IsContinuation(bs[1]) then None
        else
          var v := (b0 - 0xC0) * 64 + Bits(bs[1]);
          if v < 0x80 then None else Some(Prefix(v, 2))
      else if b0 < 0xF0 then
        if |bs| < 3 || !IsContinuation(bs[1]) || !IsContinuation(bs[2]) then None
        else
          var v := (b0 - 0xE0) * 4096 + Bits(bs[1]) * 64 + Bits(bs[2]);
          if v < 0x800 || 0xD800 <= v < 0xE000 then None else Some(Prefix(v, 3))
      else if b0 < 0xF8 then
        if |bs| < 4 || !IsContinuation(bs[1]) || !IsContinuation(bs[2]) || !IsContinuation(bs[3]) then None
        else
          var v := (b0 - 0xF0) * 262144 + Bits(bs[1]) * 4096 + Bits(bs[2]) * 64 + Bits(bs[3]);
          if v < 0x1_0000 || 0x11_0000 <= v then None else Some(Prefix(v, 4))
      else None
  }

  /** Decodes a whole byte string, or None when it is not well-formed UTF-8. */
  function Decode(bs: seq<Byte>): (r: Option<seq<Scalar>>)
    ensures r.Some? ==> |r.value| <= |bs|
    decreases |bs|
  {
    if |bs| == 0 then Some([])
    else match DecodeScalar(bs)
      case None => None
      case Some(p) =>
        match Decode(bs[p.size..])
        case None => None
        case Some(rest) => Some([p.scalar] + rest)
  }

  /** Six more payload bits appended below `q` can be read back off. */
  lemma DivMod64(q: int, r: int)
    requires 0 <= q && 0 <= r < 64
    ensures (q * 64 + r) / 64 == q && (q * 64 + r) % 64 == r
  {
  }

  /** Decoding the encoding of one scalar value reads it back and consumes exactly its bytes,
      whatever follows. */
  lemma DecodeScalarOfEncode(c: Scalar, rest: seq<Byte>)
    ensures DecodeScalar(EncodeScalar(c) + rest) == Some(Prefix(c, |EncodeScalar(c)|))
  {
    var e := EncodeScalar(c);
    var bs := e + rest;
    assert bs[..|e|] == e;
    var c1 := c / 64;
    var c2 := c1 / 64;
    assert c == c1 * 64 + c % 64;
    assert c1 == c2 * 64 + c1 % 64;
    assert c2 == (c2 / 64) * 64 + c2 % 64;
    if c < 0x80 {
    } else if c < 0x800 {
      assert bs[0] as int - 0xC0 == c1 && Bits(bs[1]) == c % 64;
    } else if c < 0x1_0000 {
      assert bs[0] as int - 0xE0 == c2 && Bits(bs[1]) == c1 % 64 && Bits(bs[2]) == c % 64;
    } else {
      assert bs[0] as int - 0xF0 == c2 / 64 && Bits(bs[1]) == c2 % 64;
      assert Bits(bs[2]) == c1 % 64 && Bits(bs[3]) == c % 64;
    }
  }

  lemma EncodeOfDecodeTwo(bs: seq<Byte>)
    requires DecodeScalar(bs).Some? && 0xC0 <= bs[0] < 0xE0
    ensures bs[..2] == EncodeScalar(DecodeScalar(bs).value.scalar)
  {
    var c := DecodeScalar(bs).value.scalar;
    DivMod64(bs[0] as int - 0xC0, Bits(bs[1]));
    assert EncodeScalar(c) == [0xC0 + c / 64, 0x80 + c % 64];
  }

  lemma EncodeOfDecodeThree(bs: seq<Byte>)
    requires DecodeScalar(bs).Some? && 0xE0 <= bs[0] < 0xF0
    ensures bs[..3] == EncodeScalar(DecodeScalar(bs).value.scalar)
  {
    var c := DecodeScalar(bs).value.scalar;
    var hi := (bs[0] as int - 0xE0) * 64 + Bits(bs[1]);
    assert c == hi * 64 + Bits(bs[2]);
    DivMod64(hi, Bits(bs[2]));
    DivMod64(bs[0] as int - 0xE0, Bits(bs[1]));
    assert EncodeScalar(c) == [0xE0 + (c / 64) / 64, 0x80 + (c / 64) % 64, 0x80 + c % 64];
  }

  lemma EncodeOfDecodeFour(bs: seq<Byte>)
    requires DecodeScalar(bs).Some? && 0xF0 <= bs[0]
    ensures bs[..4] == EncodeScalar(DecodeScalar(bs).value.scalar)
  {
    var c := DecodeScalar(bs).value.scalar;
    var top := (bs[0] as int - 0xF0) * 64 + Bits(bs[1]);
    var hi := top * 64 + Bits(bs[2]);
    assert c == hi * 64 + Bits(bs[3]);
    DivMod64(hi, Bits(bs[3]));
    DivMod64(top, Bits(bs[2]));
    DivMod64(bs[0] as int - 0xF0, Bits(bs[1]));
    var c2 := (c / 64) / 64;
    assert EncodeScalar(c) == [0xF0 + c2 / 64, 0x80 + c2 % 64, 0x80 + (c / 64) % 64, 0x80 + c % 64];
  }

  /** Whatever the decoder accepts at the front of `bs` is exactly the encoding of the
      scalar value it returns: the decoder admits no second spelling of a character. */
  lemma EncodeOfDecodeScalar(bs: seq<Byte>)
    requires DecodeScalar(bs).Some?
    ensures bs[..DecodeScalar(bs).value.size] == EncodeScalar(DecodeScalar(bs).value.scalar)
  {
    if bs[0] < 0x80 {
    } else if bs[0] < 0xE0 {
      EncodeOfDecodeTwo(bs);
    } else if bs[0] < 0xF0 {
      EncodeOfDecodeThree(bs);
    } else {
      EncodeOfDecodeFour(bs);
    }
  }

  /** Round trip: the bytes `send` hands over for a string decode back to that string. */
  lemma {:induction false} DecodeEncode(s: seq<Scalar>)
    ensures Decode(Encode(s)) == Some(s)
  {
    if |s| == 0 {
    } else {
      var e := EncodeScalar(s[0]);
      DecodeScalarOfEncode(s[0], Encode(s[1..]));
      var bs := Encode(s);
      assert bs == e + Encode(s[1..]);
      assert bs[|e|..] == Encode(s[1..]);
      DecodeEncode(s[1..]);
      assert [s[0]] + s[1..] == s;
    }
  }

  /** A string that decodes splits into the encoding of its first scalar value followed by
      a decodable rest. */
  lemma DecodeFront(bs: seq<Byte>) returns (p: Prefix, rest: seq<Scalar>)
    requires |bs| > 0 && Decode(bs).Some?
    ensures 1 <= p.size <= |bs|
    ensures bs[..p.size] == EncodeScalar(p.scalar)
    ensures Decode(bs[p.size..]) == Some(rest)
    ensures Decode(bs) == Some([p.scalar] + rest)
  {
    p := DecodeScalar(bs).value;
    rest := Decode(bs[p.size..]).value;
    EncodeOfDecodeScalar(bs);
  }

  /** Encoding distributes over prepending one scalar value. */
  lemma EncodeCons(c: Scalar, s: seq<Scalar>)
    ensures Encode([c] + s) == EncodeScalar(c) + Encode(s)
  {
    assert ([c] + s)[0] == c && ([c] + s)[1..] == s;
  }

  /** The other round trip: a byte string that decodes is the encoding of what it decodes
      to, so well-formed UTF-8 and the encoder's outputs are the same set. */
  lemma {:induction false} EncodeDecode(bs: seq<Byte>)
    requires Decode(bs).Some?
    ensures Encode(Decode(bs).value) == bs
    decreases |bs|
  {
    if |bs| > 0 {
      var p, rest := DecodeFront(bs);
      EncodeDecode(bs[p.size..]);
      EncodeCons(p.scalar, rest);
      assert bs == bs[..p.size] + bs[p.size..];
    }
  }
}
