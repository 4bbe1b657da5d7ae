/** UTF-8 as defined in section 3 of RFC 3629: the encoding Python's
    `str.encode('utf-8')` produces, and the strict decoding that agrees
    with `bytes.decode('utf-8', errors='replace')` on well-formed input. */
module Utf8 {
  import opened Results
  import opened Binary

  predicate IsContinuation(b: byte) { 0x80 <= b < 0xC0 }

  /** The one-to-four byte sequence of a single Unicode scalar value: the
      value's bits in groups of six, the highest group in the lead byte. */
  function EncodeChar(c: char): (bs: seq<byte>)
    ensures 1 <= |bs| <= 4
    ensures |bs| == 1 <==> (c as int) < 0x80
    ensures forall i :: 1 <= i < |bs| ==> IsContinuation(bs[i])
  {
    var cp := c as int;
    var q1, c0 := cp / 0x40, cp % 0x40;
    var q2, c1 := q1 / 0x40, q1 % 0x40;
    var q3, c2 := q2 / 0x40, q2 % 0x40;
    if cp < 0x80 then [cp]
    else if cp < 0x800 then [0xC0 + q1, 0x80 + c0]
    else if cp < 0x10000 then [0xE0 + q2, 0x80 + c1, 0x80 + c0]
    else [0xF0 + q3, 0x80 + c2, 0x80 + c1, 0x80 + c0]
  }

  function Encode(s: string): (bs: seq<byte>)
    ensures |s| <= |bs| <= 4 * |s|
  {
    if |s| == 0 then [] else EncodeChar(s[0]) + Encode(s[1..])
  }

  lemma {:induction false} EncodeCons(c: char, rest: string)
    ensures Encode([c] + rest) == EncodeChar(c) + Encode(rest)
  {
    assert ([c] + rest)[1..] == rest;
  }

  /** Encoding is a homomorphism: text concatenation becomes byte concatenation. */
  lemma {:induction false} EncodeAppend(a: string, b: string)
    ensures Encode(a + b) == Encode(a) + Encode(b)
    decreases |a|
  {
    if |a| > 0 {
      assert a + b == [a[0]] + (a[1..] + b);
      EncodeCons(a[0], a[1..] + b);
      EncodeAppend(a[1..], b);
      assert a == [a[0]] + a[1..];
      EncodeCons(a[0], a[1..]);
    } else {
      assert a + b == b;
    }
  }

  /** Appending a six-bit group: the quotient and remainder by 0x40 give
      back the two parts. */
  lemma {:induction false} DivMod64(q: int, r: int)
    requires 0 <= r < 0x40
    ensures (q * 0x40 + r) / 0x40 == q && (q * 0x40 + r) % 0x40 == r
  {
  }

  /** The first scalar value of a non-empty byte string and the number of
      bytes it occupies, or None when the bytes there are not well-formed
      UTF-8 (bad lead or continuation byte, overlong form, surrogate, or a
      value past U+10FFFF). */
  function DecodeFirst(bs: seq<byte>): (r: Option<(char, nat)>)
    requires |bs| > 0
    ensures r.Some? ==> 1 <= r.value.1 <= |bs|
  {
    var b0: int := bs[0];
    if b0 < 0x80 then Some((b0 as char, 1))
    else if 0xC0 <= b0 < 0xE0 && |bs| >= 2 && IsContinuation(bs[1]) then
      var g1 := bs[1] as int - 0x80;
      var cp := (b0 - 0xC0) * 0x40 + g1;
      if 0x80 <= cp then
        Some((cp as char, 2))
      else None
    else if 0xE0 <= b0 < 0xF0 && |bs| >= 3 && IsContinuation(bs[1]) && IsContinuation(bs[2]) then
      var g1, g2 := bs[1] as int - 0x80, bs[2] as int - 0x80;
      var q1 := (b0 - 0xE0) * 0x40 + g1;
      var cp := q1 * 0x40 + g2;
      if 0x800 <= cp && !(0xD800 <= cp < 0xE000) then
        Some((cp as char, 3))
      else None
    else if 0xF0 <= b0 < 0xF8 && |bs| >= 4 && IsContinuation(bs[1]) && IsContinuation(bs[2]) && IsContinuation(bs[3]) then
      var g1, g2, g3 := bs[1] as int - 0x80, bs[2] as int - 0x80, bs[3] as int - 0x80;
      var q2 := (b0 - 0xF0) * 0x40 + g1;
      var q1 := q2 * 0x40 + g2;
      var cp := q1 * 0x40 + g3;
      if 0x10000 <= cp < 0x110000 then
        Some((cp as char, 4))
      else None
    else None
  }

  /** What the decoder accepts is exactly the encoding of what it returns. */
  lemma {:induction false} DecodeFirstSound(bs: seq<byte>)
    requires |bs| > 0 && DecodeFirst(bs).Some?
    ensures EncodeChar(DecodeFirst(bs).value.0) == bs[..DecodeFirst(bs).value.1]
  {
    var b0: int := bs[0];
    if 0xC0 <= b0 < 0xE0 {
      SoundTwo(bs);
    } else if 0xE0 <= b0 < 0xF0 {
      SoundThree(bs);
    } else if 0xF0 <= b0 {
      SoundFour(bs);
    }
  }

  lemma {:induction false} SoundTwo(bs: seq<byte>)
    requires |bs| > 0 && DecodeFirst(bs).Some? && 0xC0 <= bs[0] < 0xE0
    ensures EncodeChar(DecodeFirst(bs).value.0) == bs[..2]
  {
    DivMod64(bs[0] as int - 0xC0, bs[1] as int - 0x80);
  }

  lemma {:induction false} SoundThree(bs: seq<byte>)
    requires |bs| > 0 && DecodeFirst(bs).Some? && 0xE0 <= bs[0] < 0xF0
    ensures EncodeChar(DecodeFirst(bs).value.0) == bs[..3]
  {
    var g1, g2 := bs[1] as int - 0x80, bs[2] as int - 0x80;
    DivMod64((bs[0] as int - 0xE0) * 0x40 + g1, g2);
    DivMod64(bs[0] as int - 0xE0, g1);
  }

  lemma {:induction false} SoundFour(bs: seq<byte>)
    requires |bs| > 0 && DecodeFirst(bs).Some? && 0xF0 <= bs[0]
    ensures EncodeChar(DecodeFirst(bs).value.0) == bs[..4]
  {
    var g1, g2, g3 := bs[1] as int - 0x80, bs[2] as int - 0x80, bs[3] as int - 0x80;
    var q2 := (bs[0] as int - 0xF0) * 0x40 + g1;
    DivMod64(q2 * 0x40 + g2, g3);
    DivMod64(q2, g2);
    DivMod64(bs[0] as int - 0xF0, g1);
  }

  /** Strict UTF-8 decoding: None exactly when some position holds a
      malformed sequence; otherwise the one text that encodes to `bs`. */
  function Decode(bs: seq<byte>): (r: Option<string>)
    ensures r.Some? ==> Encode(r.value) == bs
    decreases |bs|
  {
    if |bs| == 0 then Some([])
    else
      match DecodeFirst(bs)
      case None => None
      case Some((c, n)) =>
        match Decode(bs[n..])
        case None => None
        case Some(rest) =>
          DecodeFirstSound(bs);
          EncodeCons(c, rest);
          assert bs == bs[..n] + bs[n..];
          Some([c] + rest)
  }

  /** The encoder's first scalar value is found again by the decoder. */
  lemma {:induction false} DecodeFirstEncodeChar(c: char, rest: seq<byte>)
    ensures DecodeFirst(EncodeChar(c) + rest) == Some((c, |EncodeChar(c)|))
  {
    var cp := c as int;
    var bs := EncodeChar(c) + rest;
    if cp < 0x80 {
      assert bs[0] == cp;
    } else if cp < 0x800 {
      var q1, c0 := cp / 0x40, cp % 0x40;
      assert bs[0] == 0xC0 + q1 && bs[1] == 0x80 + c0;
    } else if cp < 0x10000 {
      FindThree(c, rest);
    } else {
      FindFour(c, rest);
    }
  }

  lemma {:induction false} FindThree(c: char, rest: seq<byte>)
    requires 0x800 <= c as int < 0x10000
    ensures DecodeFirst(EncodeChar(c) + rest) == Some((c, 3))
  {
    var cp := c as int;
    var bs := EncodeChar(c) + rest;
    var q1, c0 := cp / 0x40, cp % 0x40;
    var q2, c1 := q1 / 0x40, q1 % 0x40;
    assert bs[0] == 0xE0 + q2 && bs[1] == 0x80 + c1 && bs[2] == 0x80 + c0;
  }

  lemma {:induction false} FindFour(c: char, rest: seq<byte>)
    requires 0x10000 <= c as int
    ensures DecodeFirst(EncodeChar(c) + rest) == Some((c, 4))
  {
    var cp := c as int;
    var bs := EncodeChar(c) + rest;
    var q1, c0 := cp / 0x40, cp % 0x40;
    var q2, c1 := q1 / 0x40, q1 % 0x40;
    var q3, c2 := q2 / 0x40, q2 % 0x40;
    assert bs[0] == 0xF0 + q3 && bs[1] == 0x80 + c2 && bs[2] == 0x80 + c1 && bs[3] == 0x80 + c0;
  }

  /** Decoding undoes encoding: every text round-trips through UTF-8. */
  lemma {:induction false} DecodeEncode(s: string)
    ensures Decode(Encode(s)) == Some(s)
    decreases |s|
  {
    if |s| > 0 {
      var head, tail := EncodeChar(s[0]), Encode(s[1..]);
      var bs := head + tail;
      assert Encode(s) == bs;
      DecodeFirstEncodeChar(s[0], tail);
      assert bs[|head|..] == tail;
      DecodeEncode(s[1..]);
      assert Decode(bs) == Some([s[0]] + s[1..]);
      assert [s[0]] + s[1..] == s;
    }
  }
}
