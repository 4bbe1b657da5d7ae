/** The least-significant-bit codec of `steg_write` and `steg_read`
    (stega.py), over the flattened sample buffer of an image.

    Layout written into the buffer, one bit per sample:
      samples 0 .. 31   the payload's bit count, 32 binary digits, most
                        significant first (more digits, reaching into
                        samples 32 .. 35, for a payload of 2^32 bits or
                        more);
      samples 32 .. 35  reserved for the header and, while the payload has
                        fewer than 2^32 bits, never written;
      samples 36 ..     the payload: the UTF-8 bytes of the message followed
                        by the delimiter, each byte as 8 bits, most
                        significant first. */
module Stega {
  import opened Results
  import opened Binary
  import opened Samples
  import Utf8

  /** '£££' (U+00A3 three times), appended to every message. */
  const Delimiter: string := "\U{A3}\U{A3}\U{A3}"

  /** The UTF-8 form of the delimiter: C2 A3, three times. */
  const DelimiterBytes: seq<byte> := [0xC2, 0xA3, 0xC2, 0xA3, 0xC2, 0xA3]

  /** Digits of the length header. */
  const HeaderWidth: nat := 32

  /** Samples set aside for the header: 12 pixels of 3 channels. */
  const HeaderSlots: nat := 36

  /** Why a write or read fails: a path without the `.png` suffix, the
      capacity guard, or numpy's IndexError at the first sample index past
      the end of the buffer. */
  datatype Error = NotPng | MessageTooLarge | IndexOutOfRange(index: nat)

  lemma {:induction false} DelimiterEncoding()
    ensures Utf8.Encode(Delimiter) == DelimiterBytes
  {
    var pound := Utf8.EncodeChar('\U{A3}');
    assert pound == [0xC2, 0xA3];
    assert Utf8.Encode(Delimiter[2..]) == pound;
    assert Utf8.Encode(Delimiter[1..]) == pound + pound;
  }

  function AsciiLower(c: char): char
  {
    if 'A' <= c <= 'Z' then (c as int + 32) as char else c
  }

  function Lower(s: string): (r: string)
    ensures |r| == |s|
    ensures forall i :: 0 <= i < |s| ==> r[i] == AsciiLower(s[i])
  {
    if |s| == 0 then [] else [AsciiLower(s[0])] + Lower(s[1..])
  }

  /** The suffix test of stega.py line 13: the path, lower-cased, ends in
      ".png". No character outside ASCII lower-cases to '.', 'p', 'n' or
      'g', so ASCII case folding of the last four characters decides it. */
  predicate HasPngSuffix(path: string)
  {
    |path| >= 4 && Lower(path[|path| - 4..]) == ".png"
  }

  /** The payload bit string: the message's UTF-8 bytes and then the
      delimiter's six, each byte as 8 bits. */
  function PayloadBits(message: string): (bits: seq<bool>)
    ensures bits == Expand(Utf8.Encode(message) + DelimiterBytes)
    ensures |bits| == 8 * (|Utf8.Encode(message)| + |DelimiterBytes|)
  {
    Utf8.EncodeAppend(message, Delimiter);
    DelimiterEncoding();
    Expand(Utf8.Encode(message + Delimiter))
  }

  /** The header digits of stega.py line 29: exactly 32 below 2^32, and
      above that every digit of the number, from a leading one. */
  function LengthHeader(n: nat): (digits: seq<bool>)
    ensures ToNat(digits) == n
    ensures |digits| >= HeaderWidth
    ensures n < Pow2(HeaderWidth) <==> |digits| == HeaderWidth
    ensures n >= Pow2(HeaderWidth) ==> digits[0]
  {
    ToNatFromNat(n, HeaderWidth);
    LengthHeaderWide(n);
    FromNat(n, HeaderWidth)
  }

  lemma {:induction false} LengthHeaderWide(n: nat)
    ensures n >= Pow2(HeaderWidth) ==> |FromNat(n, HeaderWidth)| > 0 && FromNat(n, HeaderWidth)[0]
  {
    if n >= Pow2(HeaderWidth) {
      FromNatWide(n, HeaderWidth);
    }
  }

  /** Room for the header slots and a payload of `n` bits. */
  predicate Fits(flat: seq<bv8>, n: nat)
  {
    HeaderSlots + n <= |flat|
  }

  /** The two write loops of `steg_write` for a payload `bits`: header
      digit k into sample k for every k < 36 that the header has, then
      payload bit i into sample 36 + i. A failing write reports the first
      index past the end of the buffer. Its layout is `PlaceLayout`. */
  function Place(flat: seq<bv8>, bits: seq<bool>): (r: Result<seq<bv8>, nat>)
    requires |bits| > 0  // the payload always holds at least the delimiter
    ensures r.Ok? <==> Fits(flat, |bits|)
    ensures r.Err? ==>
      r.error == if |flat| < Min(HeaderSlots, |LengthHeader(|bits|)|) then |flat| else Max(HeaderSlots, |flat|)
    ensures r.Ok? ==> |r.value| == |flat|
  {
    var hdr := LengthHeader(|bits|);
    match Embed(flat, 0, hdr[..Min(HeaderSlots, |hdr|)])
    case Err(i) => Err(i)
    case Ok(withHeader) => Embed(withHeader, HeaderSlots, bits)
  }

  /** Where the write loops put each bit, and what they leave alone. */
  lemma {:induction false} PlaceLayout(flat: seq<bv8>, bits: seq<bool>)
    requires |bits| > 0 && Place(flat, bits).Ok?
    ensures var w, hdr := Place(flat, bits).value, LengthHeader(|bits|);
      && (forall k :: 0 <= k < |flat| ==> Upper(w[k]) == Upper(flat[k]))
      && (forall k :: 0 <= k < Min(HeaderSlots, |hdr|) ==> Lsb(w[k]) == hdr[k])
      && (forall k :: |hdr| <= k < HeaderSlots ==> w[k] == flat[k])
      && (forall k :: HeaderSlots <= k < HeaderSlots + |bits| ==> Lsb(w[k]) == bits[k - HeaderSlots])
      && (forall k :: HeaderSlots + |bits| <= k < |flat| ==> w[k] == flat[k])
  {
    var hdr := LengthHeader(|bits|);
    var m := Min(HeaderSlots, |hdr|);
    var first := Embed(flat, 0, hdr[..m]);
    var second := Embed(first.value, HeaderSlots, bits);
    assert Place(flat, bits) == second;
    assert forall k :: 0 <= k < m ==> second.value[k] == first.value[k];
  }

  /** `steg_write` on an already loaded buffer: the suffix check, then the
      capacity guard `len(bits) > 3 * len(flat)`, then the writes. The
      guard lets through payloads that do not fit, which then fail with an
      index error; no error leaves a buffer behind. */
  function Write(path: string, flat: seq<bv8>, message: string): (r: Result<seq<bv8>, Error>)
    ensures r == Err(NotPng) <==> !HasPngSuffix(path)
    ensures r == Err(MessageTooLarge) <==> HasPngSuffix(path) && |PayloadBits(message)| > 3 * |flat|
    ensures r.Ok? <==> HasPngSuffix(path) && Fits(flat, |PayloadBits(message)|)
    ensures r.Err? && r.error.IndexOutOfRange? ==>
      var hdr := LengthHeader(|PayloadBits(message)|);
      r.error.index == if |flat| < Min(HeaderSlots, |hdr|) then |flat| else Max(HeaderSlots, |flat|)
    ensures r.Ok? ==> |r.value| == |flat|
  {
    if !HasPngSuffix(path) then Err(NotPng)
    else
      var bits := PayloadBits(message);
      if |bits| > 3 * |flat| then Err(MessageTooLarge)
      else
        match Place(flat, bits)
        case Err(i) => Err(IndexOutOfRange(i))
        case Ok(written) => Ok(written)
  }

  lemma {:induction false} WritePlaces(path: string, flat: seq<bv8>, message: string)
    requires Write(path, flat, message).Ok?
    ensures Place(flat, PayloadBits(message)) == Ok(Write(path, flat, message).value)
  {
  }

  /** A write changes no sample's upper seven bits, and leaves samples
      32 .. 35 (when the header has 32 digits) and every sample after the
      payload exactly as they were. */
  lemma {:induction false} WriteFrame(path: string, flat: seq<bv8>, message: string)
    requires Write(path, flat, message).Ok?
    ensures var w, n := Write(path, flat, message).value, |PayloadBits(message)|;
      && (forall k :: 0 <= k < |flat| ==> Upper(w[k]) == Upper(flat[k]))
      && (forall k :: |LengthHeader(n)| <= k < HeaderSlots ==> w[k] == flat[k])
      && (forall k :: HeaderSlots + n <= k < |flat| ==> w[k] == flat[k])
  {
    WritePlaces(path, flat, message);
    PlaceLayout(flat, PayloadBits(message));
  }

  /** After a write, payload bit i is the data bit of sample 36 + i. */
  lemma {:induction false} WritePayload(path: string, flat: seq<bv8>, message: string)
    requires Write(path, flat, message).Ok?
    ensures var w, bits := Write(path, flat, message).value, PayloadBits(message);
      forall i :: 0 <= i < |bits| ==> Lsb(w[HeaderSlots + i]) == bits[i]
  {
    WritePlaces(path, flat, message);
    PlaceLayout(flat, PayloadBits(message));
    var w, bits := Write(path, flat, message).value, PayloadBits(message);
    forall i | 0 <= i < |bits|
      ensures Lsb(w[HeaderSlots + i]) == bits[i]
    {
      assert (HeaderSlots + i) - HeaderSlots == i;
    }
  }

  /** The bit count the header of a buffer declares: its first 32 data
      bits as a binary number. */
  function DeclaredLength(flat: seq<bv8>): (n: nat)
    requires |flat| >= HeaderWidth
    ensures n < Pow2(HeaderWidth)
  {
    ToNat(LsbBits(flat[..HeaderWidth]))
  }

  /** Removes one trailing delimiter, if there is one
      (the check and slice at stega.py lines 74-75). */
  function StripDelimiter(bs: seq<byte>): (r: seq<byte>)
    ensures r == bs || r + DelimiterBytes == bs
    ensures r == bs <==> !(|bs| >= |DelimiterBytes| && bs[|bs| - |DelimiterBytes|..] == DelimiterBytes)
  {
    var n := |DelimiterBytes|;
    if |bs| >= n && bs[|bs| - n..] == DelimiterBytes then
      assert bs[..|bs| - n] + bs[|bs| - n..] == bs;
      bs[..|bs| - n]
    else bs
  }

  /** Exactly one delimiter is removed, so a message that itself ends in
      '£' keeps it. */
  lemma {:induction false} StripAppended(bs: seq<byte>)
    ensures StripDelimiter(bs + DelimiterBytes) == bs
  {
    var full := bs + DelimiterBytes;
    assert full[|full| - |DelimiterBytes|..] == DelimiterBytes;
    assert full[..|full| - |DelimiterBytes|] == bs;
  }

  /** `steg_read` on an already loaded buffer: the data bits of samples
      0 .. 35 (those of 32 .. 35 are read and ignored), the first 32 as the
      payload's bit count, that many data bits from sample 36 grouped into
      bytes, and one trailing delimiter removed. Nothing checks the
      declared count against the buffer, so a buffer too short for it fails
      at its first missing index. */
  function Read(flat: seq<bv8>): (r: Result<seq<byte>, Error>)
    ensures r.Err? <==> |flat| < HeaderSlots || !Fits(flat, DeclaredLength(flat))
    ensures r.Err? ==> r.error == IndexOutOfRange(|flat|)
  {
    if |flat| < HeaderSlots then Err(IndexOutOfRange(|flat|))
    else
      var n := DeclaredLength(flat);
      if HeaderSlots + n > |flat| then Err(IndexOutOfRange(|flat|))
      else Ok(StripDelimiter(Group(LsbBits(flat[HeaderSlots..HeaderSlots + n]))))
  }

  /** The header the write loops leave behind: for a payload of fewer
      than 2^32 bits the data bits of samples 0 .. 31 spell its bit count. */
  lemma {:induction false} PlaceHeader(flat: seq<bv8>, bits: seq<bool>)
    requires |bits| > 0 && Place(flat, bits).Ok?
    requires |bits| < Pow2(HeaderWidth)
    ensures var w := Place(flat, bits).value;
      && LsbBits(w[..HeaderWidth]) == LengthHeader(|bits|)
      && DeclaredLength(w) == |bits|
  {
    PlaceLayout(flat, bits);
    var w := Place(flat, bits).value;
    assert LsbBits(w[..HeaderWidth]) == LengthHeader(|bits|);
    ToNatFromNat(|bits|, HeaderWidth);
  }

  /** The payload the write loops leave behind, read back as data bits. */
  lemma {:induction false} PlacePayload(flat: seq<bv8>, bits: seq<bool>)
    requires |bits| > 0 && Place(flat, bits).Ok?
    ensures var w := Place(flat, bits).value;
      LsbBits(w[HeaderSlots..HeaderSlots + |bits|]) == bits
  {
    PlaceLayout(flat, bits);
    var w := Place(flat, bits).value;
    var payload := w[HeaderSlots..HeaderSlots + |bits|];
    forall i | 0 <= i < |bits|
      ensures LsbBits(payload)[i] == bits[i]
    {
      assert payload[i] == w[HeaderSlots + i];
    }
  }

  /** Reading a buffer the write loops produced recovers the grouped
      payload, less one trailing delimiter. */
  lemma {:induction false} ReadPlaced(flat: seq<bv8>, bits: seq<bool>)
    requires |bits| > 0 && Place(flat, bits).Ok?
    requires |bits| < Pow2(HeaderWidth)
    ensures Read(Place(flat, bits).value) == Ok(StripDelimiter(Group(bits)))
  {
    PlaceHeader(flat, bits);
    PlacePayload(flat, bits);
  }

  /** After a successful write of fewer than 2^32 payload bits, the data
      bits of samples 0 .. 31 spell the payload's bit count as 32 binary
      digits, a read declares exactly that count, and samples 32 .. 35 are
      as they were. */
  lemma {:induction false} WriteHeader(path: string, flat: seq<bv8>, message: string)
    requires Write(path, flat, message).Ok?
    requires |PayloadBits(message)| < Pow2(HeaderWidth)
    ensures var w, n := Write(path, flat, message).value, |PayloadBits(message)|;
      && LsbBits(w[..HeaderWidth]) == LengthHeader(n)
      && |LengthHeader(n)| == HeaderWidth
      && DeclaredLength(w) == n
      && (forall k :: HeaderWidth <= k < HeaderSlots ==> w[k] == flat[k])
  {
    WritePlaces(path, flat, message);
    PlaceHeader(flat, PayloadBits(message));
    WriteFrame(path, flat, message);
  }

  /** A payload of 2^32 bits or more cannot be described by the header:
      reading it back declares a different count. */
  lemma {:induction false} HeaderOverflow(path: string, flat: seq<bv8>, message: string)
    requires Write(path, flat, message).Ok?
    requires |PayloadBits(message)| >= Pow2(HeaderWidth)
    ensures DeclaredLength(Write(path, flat, message).value) != |PayloadBits(message)|
  {
  }

  /** Reading what a successful write produced gives back the message's
      UTF-8 bytes, whatever the message ends with. */
  lemma {:induction false} RoundTrip(path: string, flat: seq<bv8>, message: string)
    requires Write(path, flat, message).Ok?
    requires |PayloadBits(message)| < Pow2(HeaderWidth)
    ensures Read(Write(path, flat, message).value) == Ok(Utf8.Encode(message))
  {
    WritePlaces(path, flat, message);
    ReadPlaced(flat, PayloadBits(message));
    GroupExpand(Utf8.Encode(message) + DelimiterBytes);
    StripAppended(Utf8.Encode(message));
  }

  /** The same round trip at the level of text: decoding the bytes read
      back yields the message itself. */
  lemma {:induction false} TextRoundTrip(path: string, flat: seq<bv8>, message: string)
    requires Write(path, flat, message).Ok?
    requires |PayloadBits(message)| < Pow2(HeaderWidth)
    ensures Read(Write(path, flat, message).value).Ok?
    ensures Utf8.Decode(Read(Write(path, flat, message).value).value) == Some(message)
  {
    RoundTrip(path, flat, message);
    Utf8.DecodeEncode(message);
  }

  /** Reading looks at nothing but data bits: buffers that agree on them
      read the same. */
  lemma {:induction false} ReadSeesOnlyLsbs(a: seq<bv8>, b: seq<bv8>)
    requires LsbBits(a) == LsbBits(b)
    ensures Read(a) == Read(b)
  {
    if |a| >= HeaderSlots {
      LsbBitsSlice(a, 0, HeaderWidth);
      LsbBitsSlice(b, 0, HeaderWidth);
      assert DeclaredLength(a) == DeclaredLength(b);
      var n := DeclaredLength(a);
      if HeaderSlots + n <= |a| {
        LsbBitsSlice(a, HeaderSlots, HeaderSlots + n);
        LsbBitsSlice(b, HeaderSlots, HeaderSlots + n);
      }
    }
  }

  /** The data bits of samples 32 .. 35 are read but play no part:
      buffers that differ only in those samples read the same. */
  lemma {:induction false} ReadIgnoresSlots(a: seq<bv8>, b: seq<bv8>)
    requires |a| == |b| >= HeaderSlots
    requires forall k :: 0 <= k < |a| && !(HeaderWidth <= k < HeaderSlots) ==> a[k] == b[k]
    ensures Read(a) == Read(b)
  {
    assert a[..HeaderWidth] == b[..HeaderWidth];
    var n := DeclaredLength(a);
    if HeaderSlots + n <= |a| {
      assert a[HeaderSlots..HeaderSlots + n] == b[HeaderSlots..HeaderSlots + n];
    }
  }

  /** A declared count of 8 * whole + part bits with 0 < part < 8 leaves a
      final chunk of `part` bits. It is kept as the number those bits
      spell, and since that number is below 0x80 it never ends a
      delimiter, so nothing is stripped. */
  lemma {:induction false} PartialChunkKept(flat: seq<bv8>, whole: nat, part: nat)
    requires |flat| >= HeaderSlots && Fits(flat, DeclaredLength(flat))
    requires DeclaredLength(flat) == 8 * whole + part && 0 < part < 8
    ensures var n := DeclaredLength(flat);
      var bytes := Group(LsbBits(flat[HeaderSlots..HeaderSlots + n]));
      && Read(flat) == Ok(bytes)
      && |bytes| == whole + 1
      && bytes[whole] == ToNat(LsbBits(flat[HeaderSlots + 8 * whole .. HeaderSlots + n]))
      && bytes[whole] < 0x80
  {
    var n := DeclaredLength(flat);
    ReadPayload(flat);
    PayloadLastChunk(flat, n, whole, part);
    NoStrip(Group(LsbBits(flat[HeaderSlots..HeaderSlots + n])));
  }

  lemma {:induction false} PayloadLastChunk(flat: seq<bv8>, n: nat, whole: nat, part: nat)
    requires HeaderSlots + n <= |flat| && n == 8 * whole + part && 0 < part < 8
    ensures var bytes := Group(LsbBits(flat[HeaderSlots..HeaderSlots + n]));
      && |bytes| == whole + 1
      && bytes[whole] == ToNat(LsbBits(flat[HeaderSlots + 8 * whole .. HeaderSlots + n]))
      && bytes[whole] < 0x80
  {
    GroupLast(LsbBits(flat[HeaderSlots..HeaderSlots + n]), whole, part);
    PayloadTail(flat, n, 8 * whole);
  }

  lemma {:induction false} NoStrip(g: seq<byte>)
    requires |g| > 0 && g[|g| - 1] < 0x80
    ensures StripDelimiter(g) == g
  {
    if |g| >= |DelimiterBytes| {
      assert g[|g| - |DelimiterBytes|..][|DelimiterBytes| - 1] == g[|g| - 1];
    }
  }

  lemma {:induction false} PayloadTail(flat: seq<bv8>, n: nat, start: nat)
    requires start <= n && HeaderSlots + n <= |flat|
    ensures LsbBits(flat[HeaderSlots..HeaderSlots + n])[start..] == LsbBits(flat[HeaderSlots + start .. HeaderSlots + n])
  {
    LsbBitsSlice(flat[HeaderSlots..HeaderSlots + n], start, n);
    SliceOfSlice(flat, HeaderSlots, HeaderSlots + n, start, n);
  }

  lemma {:induction false} SliceOfSlice(s: seq<bv8>, a: nat, b: nat, c: nat, d: nat)
    requires a <= b <= |s| && c <= d <= b - a
    ensures s[a..b][c..d] == s[a + c .. a + d]
  {
    forall i | 0 <= i < d - c
      ensures s[a..b][c..d][i] == s[a + c .. a + d][i]
    {
    }
  }

  lemma {:induction false} ReadPayload(flat: seq<bv8>)
    requires |flat| >= HeaderSlots && Fits(flat, DeclaredLength(flat))
    ensures Read(flat) == Ok(StripDelimiter(Group(LsbBits(flat[HeaderSlots..HeaderSlots + DeclaredLength(flat)]))))
  {
  }

  /** The capacity guard as written compares the payload against three
      bits per sample and ignores the header, so it admits payloads that
      do not fit: a 4 x 4 RGB image (48 samples) and the message "hi"
      pass it, and the write then fails at sample 48. */
  lemma {:induction false} GuardAdmitsOverflow()
    ensures var flat := seq(48, _ => 0 as bv8);
      && |PayloadBits("hi")| <= 3 * |flat|
      && !Fits(flat, |PayloadBits("hi")|)
      && Write("hidden.png", flat, "hi") == Err(IndexOutOfRange(48))
  {
    var flat := seq(48, _ => 0 as bv8);
    assert Utf8.Encode("hi") == [0x68, 0x69] by {
      assert "hi"[1..] == "i";
    }
    assert "hidden.png"[6..] == ".png";
    assert Lower(".png") == ".png";
    assert |LengthHeader(64)| == HeaderWidth;
  }

  /** The write with the capacity check the guard evidently means: room
      for the 36 header samples and one sample per payload bit. */
  function CheckedWrite(path: string, flat: seq<bv8>, message: string): (r: Result<seq<bv8>, Error>)
    ensures r.Err? ==> !r.error.IndexOutOfRange?
    ensures r == Err(MessageTooLarge) <==> HasPngSuffix(path) && !Fits(flat, |PayloadBits(message)|)
    ensures r.Ok? <==> Write(path, flat, message).Ok?
    ensures r.Ok? ==> r == Write(path, flat, message)
  {
    if !HasPngSuffix(path) then Err(NotPng)
    else if !Fits(flat, |PayloadBits(message)|) then Err(MessageTooLarge)
    else Write(path, flat, message)
  }
}
