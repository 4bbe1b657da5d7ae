# Stegasaurus LSB codec in Dafny

A model of the steganography codec in `stega.py`. `steg_write` hides a text
message in the least-significant bits of an image's samples. `steg_read`
recovers it. Both work on the image flattened into one sequence of 8-bit
samples, which is the input here (`seq<bv8>`). Loading and saving the image
is left out.

The write side does the following:

- it checks the `.png` suffix of the input path;
- it appends the delimiter `'£££'` to the message;
- it expands the message's UTF-8 bytes into bits, each byte as 8 bits, most
  significant first;
- it applies the capacity guard `len(bits) > 3 * len(flat)`;
- it writes the payload's bit count as binary digits (`f'{n:032b}'`) into
  samples 0 .. 35, as far as the digits reach;
- it writes the payload bits into samples 36 onward.

The read side does the following:

- it reads the data bits of samples 0 .. 35 and takes the first 32 as the
  count `n`;
- it reads `n` data bits from sample 36;
- it groups them into bytes, keeping a final short chunk;
- it removes one trailing delimiter.

Modules:

- `Results`: `Result`, `Option`, `Min`, `Max`.
- `Binary`: MSB-first digit strings (`FromNat` for `format`, `ToNat` for
  `int(s, 2)`), byte expansion (`Expand`) and chunk grouping (`Group`).
- `Utf8`: UTF-8 encoding of a string and a strict decoder.
- `Samples`: the data bit of a sample, and writing bits into consecutive
  samples (`Embed`).
- `Stega`: the header layout, the two operations `Write` and `Read`, the
  properties that relate them, and the corrected write.

Errors are values of `Stega.Error`:

- `NotPng`: the `ValueError` at line 14.
- `MessageTooLarge`: the `ValueError` at line 25.
- `IndexOutOfRange(i)`: numpy's `IndexError`, raised at the first sample
  index `i` that is read or written but does not exist.

Four behaviours of the code are easy to miss:

- While the payload has fewer than 2^32 bits, samples 32 .. 35 are never
  written. The header loop only writes digits that exist, and a 32-digit
  header leaves these four samples as they were. A payload of 2^32 bits or
  more has a longer header, whose extra digits do go into samples 32 .. 35.
- A final chunk of fewer than 8 bits is kept, as the number it spells.
- The capacity guard compares the payload against `3 * len(flat)` bits. It
  does not count the 36 header samples.
- Reading never checks the declared count against the buffer. A count too
  large for the buffer ends in an `IndexError`.

## Model

| member | source | states |
|---|---|---|
| Stega.Write | stega.py:12-42 | Rejects a path without the `.png` suffix, and only such a path. Reports "too large" exactly when the path is accepted and the payload has more than three bits per sample. Succeeds exactly when the 36 header samples and one sample per payload bit fit. Otherwise it fails at the first missing sample index. A success keeps the buffer's length. |
| Stega.PayloadBits | stega.py:16-17 | The payload is the expansion of the message's UTF-8 bytes followed by the delimiter's six bytes. Its length is 8 * (len(utf8(message)) + 6). |
| Stega.LengthHeader | stega.py:28-29 | The header digits read back as the payload's bit count. There are at least 32 of them, and exactly 32 iff the count is below 2^32. A wider count starts with a one digit, so nothing is cut off. |
| Stega.DelimiterEncoding | stega.py:9 | The UTF-8 form of `'£££'` is C2 A3 C2 A3 C2 A3. |
| Stega.Place | stega.py:31-42 | The two write loops succeed iff the header samples and the payload fit. A failure reports the first index past the end: inside the header loop when the buffer is shorter than the digits written there, in the payload loop otherwise. |
| Stega.PlaceLayout | stega.py:31-42 | After the write loops, every sample keeps its upper seven bits, and sample k < 36 carries header digit k. Samples from the header's end to 35 are unchanged. Sample 36 + i carries payload bit i. Samples after the payload are unchanged. |
| Stega.WriteFrame | stega.py:32-42 | A successful write keeps every sample's upper seven bits. It leaves samples 32 .. 35 (for a 32-digit header) and all samples after the payload exactly as they were. |
| Stega.WritePayload | stega.py:40-42 | After a successful write, the data bit of sample 36 + i is payload bit i, for every i. |
| Stega.WriteHeader | stega.py:28-37 | For a payload under 2^32 bits, the data bits of samples 0 .. 31 spell its bit count in 32 digits. A read declares exactly that count, and samples 32 .. 35 are unchanged. |
| Stega.HeaderOverflow | stega.py:62 | For a payload of 2^32 bits or more, the count a read declares differs from the payload's length. |
| Stega.DeclaredLength | stega.py:55-62 | The declared count is the first 32 data bits read as a number, so it is always below 2^32. |
| Stega.StripDelimiter | stega.py:74-75 | Removes the delimiter iff the bytes end with it, and then removes exactly one copy. Otherwise it returns the bytes unchanged. |
| Stega.StripAppended | stega.py:74-75 | Stripping bytes with one delimiter appended gives back exactly those bytes, even when they themselves end in '£'. |
| Stega.Read | stega.py:50-77 | Fails iff the buffer has fewer than 36 samples or fewer than 36 plus the declared count. The failure is an index error at the buffer's length. |
| Stega.PlaceHeader | stega.py:55-62 | After the write loops with a payload under 2^32 bits, the first 32 data bits are the header digits and the declared count is the payload's length. |
| Stega.PlacePayload | stega.py:65-67 | After the write loops, the data bits of the `n` samples from 36 are exactly the payload bits. |
| Stega.ReadPlaced | stega.py:65-75 | Reading a buffer produced by the write loops yields the grouped payload with one trailing delimiter removed. |
| Stega.RoundTrip | stega.py:16-17 | Reading what a successful write produced returns the message's UTF-8 bytes, including messages that end in '£' (payload under 2^32 bits). |
| Stega.TextRoundTrip | stega.py:70-75 | Decoding the bytes read back after a successful write yields the original message. |
| Stega.ReadSeesOnlyLsbs | stega.py:59-67 | Buffers with the same data bits read identically. |
| Stega.ReadIgnoresSlots | stega.py:56-62 | Samples 32 .. 35 are read but unused: buffers of the same length that differ only there read identically. |
| Stega.PartialChunkKept | stega.py:70 | A declared count of 8w + p bits with 0 < p < 8 reads as w + 1 bytes. The last byte is the number the final p bits spell, and it is below 0x80, so no delimiter is stripped. |
| Stega.GuardAdmitsOverflow | stega.py:23-25 | The guard as written admits a 48-sample buffer and the message "hi" (64 payload bits), and the write then fails at sample 48. |
| Stega.CheckedWrite | stega.py:22-25 | The corrected write never ends in an index error. It reports "too large" exactly when the header and payload do not fit. It succeeds exactly when the as-written write does, with the same buffer. |
| Binary.ToNatFromNat | stega.py:29 | Reading back the binary digits of n at any width gives n. |
| Binary.FromNatWide | stega.py:29 | A number of at least 2^w is written with more than w digits, the first of them a one. Like Python's `format`, this never truncates. |
| Binary.FromNatToNat | stega.py:70 | Re-writing the value of a bit string at its own width gives the string back. |
| Binary.ExpandBytes | stega.py:17 | Byte i of the input occupies bits 8i .. 8i+7 of the expansion, as its 8 binary digits. |
| Binary.GroupChunks | stega.py:70 | Grouping yields ceil(len(bits) / 8) bytes, and byte j is the number chunk j spells, a final short chunk included. |
| Binary.GroupLast | stega.py:70 | A bit string of 8w + p bits, 0 < p < 8, groups into w + 1 bytes, the last being the value of its final p bits and below 0x80. |
| Binary.GroupExpand | stega.py:17 | Grouping the expansion of a byte string gives back the bytes. |
| Binary.ExpandGroup | stega.py:70 | Expanding the grouping of a bit string whose length is a multiple of 8 gives back the bits. |
| Utf8.EncodeChar | stega.py:17 | A character encodes to 1 to 4 bytes. The encoding is one byte iff the character is ASCII, and every byte after the first is a continuation byte. |
| Utf8.EncodeAppend | stega.py:16-17 | Encoding a concatenation gives the concatenation of the encodings. |
| Utf8.Decode | stega.py:71 | Whatever the strict decoder accepts, it accepts as the decoding of exactly those bytes. |
| Utf8.DecodeEncode | stega.py:71 | Strictly decoding the encoding of any string gives the string back. |
| Samples.SetLsb | stega.py:37 | Setting a sample's data bit makes it the given bit and keeps the upper seven bits. |
| Samples.LsbBits | stega.py:59 | The data bits collected from a run of samples are, index by index, the samples' least-significant bits. |
| Samples.Embed | stega.py:40-42 | Writing bits from a start index succeeds iff they fit. A failure names the first missing index. A success puts bit i in the data bit of sample start + i, keeps those samples' upper bits, and changes no other sample. |

## Left out

- Image I/O: `Image.open`, `np.array(...).flatten()`, the reshape and
  `save`, and the success dialog. The flattened buffer is the input and the
  output. Nothing excludes an alpha channel. An image whose samples are not
  8-bit is not modelled.
- The `tkinter` application class and the commented-out calls. The unused
  `LENGTH_END` constant has no role in the codec.
- `errors='replace'` decoding: `Read` returns bytes, and `Utf8.Decode` is
  strict. The delimiter is stripped from the bytes (last six bytes
  C2 A3 C2 A3 C2 A3). This agrees with `endswith('£££')` on the replacement-decoded
  text: C2 always starts a sequence, and '£' decodes only from C2 A3.
- Stega.HasPngSuffix: it lower-cases only ASCII letters. No other
  character lower-cases to '.', 'p', 'n' or 'g', but Python's full Unicode
  `lower()` (which can change a string's length) is not modelled.
- Strings holding lone surrogates, for which Python's `encode` raises, are
  not expressible: Dafny strings hold Unicode scalar values.
- Binary.FromNat: for width 0 it gives the empty string for 0, where
  Python's `format(0, 'b')` gives '0'. The codec uses only widths 8
  and 32.

## Findings

| source | as written | input that shows it | evidently intended | confidence | as-written member | corrected member |
|---|---|---|---|---|---|---|
| stega.py:23-25 | The guard rejects a payload only when it has more than `3 * len(flat)` bits, counting three bits per sample and no header. | A 4 x 4 RGB image (48 samples), path "hidden.png", message "hi": 64 payload bits pass the guard (64 <= 144), and the write fails with an index error at sample 48. | Reject with "too large" unless the 36 header samples and one sample per payload bit fit (`36 + len(bits) <= len(flat)`). | not executed; proved about the model | Stega.GuardAdmitsOverflow | Stega.CheckedWrite |
