/** Bit strings read and written most-significant bit first, as the
    codec builds them with Python's `format(n, '0wb')` and parses them with
    `int(s, 2)`. */
module Binary {
  import opened Results

  type byte = b: int | 0 <= b < 256

  function Pow2(k: nat): (r: nat)
    ensures r >= 1
  {
    if k == 0 then 1 else 2 * Pow2(k - 1)
  }

  lemma {:induction false} Pow2Monotone(j: nat, k: nat)
    requires j <= k
    ensures Pow2(j) <= Pow2(k)
    decreases k
  {
    if j < k {
      Pow2Monotone(j, k - 1);
    }
  }

  /** The number a bit string denotes, most significant bit first
      (Python's `int(s, 2)` on a string of '0' and '1'). */
  function ToNat(bits: seq<bool>): (n: nat)
    ensures n < Pow2(|bits|)
  {
    if |bits| == 0 then 0
    else 2 * ToNat(bits[..|bits| - 1]) + (if bits[|bits| - 1] then 1 else 0)
  }

  /** The binary digits of `n`, most significant first, padded on the left
      with zeros to at least `w` digits; for `w >= 1` this is Python's
      `format(n, '0{w}b')`, which never truncates a wider number. */
  function FromNat(n: nat, w: nat): (bits: seq<bool>)
    ensures |bits| >= w
    ensures n < Pow2(w) ==> |bits| == w
    decreases n + w
  {
    if n == 0 && w == 0 then []
    else
      FromNat(n / 2, if w == 0 then 0 else w - 1) + [n % 2 == 1]
  }

  /** Reading the digits back gives the number. */
  lemma {:induction false} ToNatFromNat(n: nat, w: nat)
    ensures ToNat(FromNat(n, w)) == n
    decreases n + w
  {
    if !(n == 0 && w == 0) {
      var w' := if w == 0 then 0 else w - 1;
      ToNatFromNat(n / 2, w');
      ToNatAppend(FromNat(n / 2, w'), n % 2 == 1);
      Halve(n / 2, n % 2 == 1);
    }
  }

  /** A number too wide for `w` digits is written with more than `w`
      digits and a leading one: nothing is cut off and no zero is padded. */
  lemma {:induction false} FromNatWide(n: nat, w: nat)
    requires n >= Pow2(w)
    ensures |FromNat(n, w)| > w && FromNat(n, w)[0]
    decreases n + w
  {
    var w' := if w == 0 then 0 else w - 1;
    if n / 2 >= Pow2(w') {
      FromNatWide(n / 2, w');
    } else {
      assert w == 0 && n == 1;
      assert FromNat(0, 0) == [];
    }
  }

  lemma {:induction false} ToNatAppend(init: seq<bool>, bit: bool)
    ensures ToNat(init + [bit]) == 2 * ToNat(init) + (if bit then 1 else 0)
  {
    assert (init + [bit])[..|init|] == init;
  }

  /** Digits of a fixed width are determined by their value: reading a bit
      string and writing it back at the same width gives it back. */
  lemma {:induction false} FromNatToNat(bits: seq<bool>)
    ensures FromNat(ToNat(bits), |bits|) == bits
  {
    if |bits| > 0 {
      var init, last := bits[..|bits| - 1], bits[|bits| - 1];
      var m := ToNat(init);
      assert bits == init + [last];
      FromNatToNat(init);
      FromNatAppend(m, last, |init|);
    }
  }

  /** Appending a bit to the right doubles the value and adds the bit. */
  lemma {:induction false} FromNatAppend(m: nat, bit: bool, w: nat)
    ensures FromNat(2 * m + (if bit then 1 else 0), w + 1) == FromNat(m, w) + [bit]
  {
    Halve(m, bit);
  }

  lemma {:induction false} Halve(m: nat, bit: bool)
    ensures (2 * m + (if bit then 1 else 0)) / 2 == m
    ensures ((2 * m + (if bit then 1 else 0)) % 2 == 1) == bit
  {
  }

  lemma {:induction false} Pow2Byte()
    ensures Pow2(8) == 256
  {
  }

  /** A byte is written with exactly 8 digits. */
  lemma {:induction false} ByteWidth(b: byte)
    ensures |FromNat(b, 8)| == 8
  {
    Pow2Byte();
  }

  /** Each byte written as exactly 8 bits, most significant first, one
      after the other, as the payload is built at stega.py line 17. */
  function Expand(bs: seq<byte>): (bits: seq<bool>)
    ensures |bits| == 8 * |bs|
  {
    if |bs| == 0 then []
    else FromNat(bs[0], 8) + Expand(bs[1..])
  }

  lemma {:induction false} ExpandCons(b: byte, bs: seq<byte>)
    ensures Expand([b] + bs) == FromNat(b, 8) + Expand(bs)
  {
    assert ([b] + bs)[1..] == bs;
  }

  /** Byte i of the input occupies bits 8i .. 8i+7 of the expansion. */
  lemma {:induction false} ExpandBytes(bs: seq<byte>)
    ensures forall i :: 0 <= i < |bs| ==> Expand(bs)[8 * i .. 8 * i + 8] == FromNat(bs[i], 8)
    decreases |bs|
  {
    if |bs| > 0 {
      var head, tail := FromNat(bs[0], 8), Expand(bs[1..]);
      ByteWidth(bs[0]);
      ExpandBytes(bs[1..]);
      forall i | 0 <= i < |bs|
        ensures Expand(bs)[8 * i .. 8 * i + 8] == FromNat(bs[i], 8)
      {
        if i > 0 {
          assert (head + tail)[8 * i .. 8 * i + 8] == tail[8 * (i - 1) .. 8 * (i - 1) + 8];
        }
      }
    }
  }

  /** Chunk `j` of a bit string: bits 8j .. 8j+7, or fewer at the end. */
  function Chunk(bits: seq<bool>, j: nat): seq<bool>
    requires 8 * j < |bits|
  {
    bits[8 * j .. Min(8 * j + 8, |bits|)]
  }

  /** Dropping the first chunk shifts the others down by one. */
  lemma {:induction false} ChunkShift(bits: seq<bool>, j: nat)
    requires 1 <= j && 8 * j < |bits|
    ensures Chunk(bits[8..], j - 1) == Chunk(bits, j)
  {
    assert Min(8 * (j - 1) + 8, |bits| - 8) + 8 == Min(8 * j + 8, |bits|);
  }

  /** Consecutive 8-bit chunks of a bit string, each read as a number; a
      final chunk of k < 8 bits is kept as the k-bit number it spells
      (the byte array built at stega.py line 70). Its contract is
      `GroupChunks`. */
  function Group(bits: seq<bool>): seq<byte>
  {
    if |bits| == 0 then []
    else
      var k := Min(8, |bits|);
      Pow2Monotone(k, 8);
      [ToNat(bits[..k])] + Group(bits[k..])
  }

  /** There are ceil(|bits| / 8) chunks, and byte j is the number chunk j
      spells, whatever its length. */
  lemma {:induction false} GroupChunks(bits: seq<bool>)
    ensures |bits| <= 8 * |Group(bits)| < |bits| + 8
    ensures forall j :: 0 <= j < |Group(bits)| ==> 8 * j < |bits| && Group(bits)[j] == ToNat(Chunk(bits, j))
    decreases |bits|
  {
    if |bits| > 0 {
      var k := Min(8, |bits|);
      var g, rest := Group(bits), Group(bits[k..]);
      GroupChunks(bits[k..]);
      assert g == [ToNat(bits[..k])] + rest;
      forall j | 0 <= j < |g|
        ensures 8 * j < |bits| && g[j] == ToNat(Chunk(bits, j))
      {
        if j > 0 {
          assert g[j] == rest[j - 1];
          ChunkShift(bits, j);
        }
      }
    }
  }

  /** A bit string of 8 * whole + part bits with 0 < part < 8 groups into
      whole + 1 bytes, the last being the number its final `part` bits
      spell, which is below 0x80. */
  lemma {:induction false} GroupLast(bits: seq<bool>, whole: nat, part: nat)
    requires |bits| == 8 * whole + part && 0 < part < 8
    ensures |Group(bits)| == whole + 1
    ensures Group(bits)[whole] == ToNat(bits[8 * whole..])
    ensures Group(bits)[whole] < 0x80
  {
    GroupChunks(bits);
    assert Min(8 * whole + 8, |bits|) == |bits|;
    assert Chunk(bits, whole) == bits[8 * whole..];
    Pow2Monotone(part, 7);
  }

  lemma {:induction false} GroupFirstChunk(bits: seq<bool>)
    requires |bits| >= 8
    ensures Group(bits) == [ToNat(bits[..8])] + Group(bits[8..])
  {
  }

  /** Grouping undoes expansion: every byte comes back. */
  lemma {:induction false} GroupExpand(bs: seq<byte>)
    ensures Group(Expand(bs)) == bs
    decreases |bs|
  {
    if |bs| > 0 {
      var head, tail := FromNat(bs[0], 8), Expand(bs[1..]);
      ByteWidth(bs[0]);
      assert (head + tail)[..8] == head && (head + tail)[8..] == tail;
      GroupFirstChunk(head + tail);
      ToNatFromNat(bs[0], 8);
      GroupExpand(bs[1..]);
      assert bs == [bs[0]] + bs[1..];
    }
  }

  /** Expansion undoes grouping when the bit string is a whole number of
      bytes, so the two are inverse bijections on such strings. */
  lemma {:induction false} ExpandGroup(bits: seq<bool>)
    requires |bits| % 8 == 0
    ensures Expand(Group(bits)) == bits
  {
    ExpandGroupBytes(bits, |bits| / 8);
  }

  lemma {:induction false} ExpandGroupBytes(bits: seq<bool>, count: nat)
    requires |bits| == 8 * count
    ensures Expand(Group(bits)) == bits
    decreases count
  {
    if count > 0 {
      var chunk, rest := bits[..8], bits[8..];
      var b := ToNat(chunk);
      assert b < 256 by { Pow2Byte(); }
      calc {
        Expand(Group(bits));
        == { GroupFirstChunk(bits); }
        Expand([b] + Group(rest));
        == { ExpandCons(b, Group(rest)); }
        FromNat(b, 8) + Expand(Group(rest));
        == { FromNatToNat(chunk); ExpandGroupBytes(rest, count - 1); }
        chunk + rest;
      }
      assert chunk + rest == bits;
    }
  }
}
