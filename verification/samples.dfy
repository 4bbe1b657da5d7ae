/** The flattened image: one 8-bit sample per channel of every pixel, in
    the order numpy's `flatten` yields them. Only the least-significant bit
    of a sample carries data. */
module Samples {
  import opened Results

  /** The least-significant bit of a sample (`x & 1`). */
  predicate Lsb(x: bv8) { x & 1 == 1 }

  /** The seven bits a write must preserve (`x & 0xFE`). */
  function Upper(x: bv8): bv8 { x & 0xFE }

  /** `(x & 0xFE) | bit`: replaces the data bit and nothing else. */
  function SetLsb(x: bv8, bit: bool): (y: bv8)
    ensures Lsb(y) == bit
    ensures Upper(y) == Upper(x)
  {
    (x & 0xFE) | (if bit then 1 else 0)
  }

  /** The data bits of consecutive samples, collected one by one as the
      read loops at stega.py lines 59 and 67 do. */
  function LsbBits(s: seq<bv8>): (bits: seq<bool>)
    ensures |bits| == |s|
    ensures forall i :: 0 <= i < |s| ==> bits[i] == Lsb(s[i])
  {
    if |s| == 0 then [] else LsbBits(s[..|s| - 1]) + [Lsb(s[|s| - 1])]
  }

  /** Reading a slice of the buffer reads the same slice of its data bits. */
  lemma {:induction false} LsbBitsSlice(s: seq<bv8>, i: nat, j: nat)
    requires i <= j <= |s|
    ensures LsbBits(s[i..j]) == LsbBits(s)[i..j]
  {
  }

  /** Writes `bits` into the data bits of samples `start`, `start + 1`, ...
      in order, as the write loops do. Writing past the end of the buffer
      fails (numpy's IndexError) with the first index that does not exist. */
  function Embed(flat: seq<bv8>, start: nat, bits: seq<bool>): (r: Result<seq<bv8>, nat>)
    ensures r.Ok? <==> |bits| == 0 || start + |bits| <= |flat|
    ensures r.Err? ==> r.error == Max(start, |flat|)
    ensures r.Ok? ==> |r.value| == |flat|
    ensures r.Ok? ==> forall k :: 0 <= k < |flat| && (k < start || start + |bits| <= k) ==> r.value[k] == flat[k]
    ensures r.Ok? ==> forall k :: start <= k < start + |bits| ==>
      Lsb(r.value[k]) == bits[k - start] && Upper(r.value[k]) == Upper(flat[k])
    decreases |bits|
  {
    if |bits| == 0 then Ok(flat)
    else if start >= |flat| then Err(start)
    else
      var next := flat[start := SetLsb(flat[start], bits[0])];
      Embed(next, start + 1, bits[1..])
  }
}
