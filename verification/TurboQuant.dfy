/**
 TurboQuant: nearest-codebook quantization of real vectors into a packed 2- or 3-bit
 stream, and its sparse decoding. Levels are the reals the codebook literals denote.
 */
module TurboQuant {
  import opened Wrappers

  const LEVELS_2_BIT: seq<real> := [-1.0, -0.33333334, 0.33333334, 1.0]
  const LEVELS_3_BIT: seq<real> :=
    [-1.0, -0.71428573, -0.42857143, -0.14285715, 0.14285715, 0.42857143, 0.71428573, 1.0]
  const USIZE_MAX: nat := 0xFFFF_FFFF_FFFF_FFFF

  datatype Error =
    | UnsupportedBitRate(bits: nat)
    | AttentionLengthMismatch(expected: nat, actual: nat)
    | PackedLengthMismatch(expected: nat, actual: nat)

  predicate Supported(bits: nat) {
    bits == 2 || bits == 3
  }

  function Levels(bits: nat): seq<real>
    requires Supported(bits)
  {
    if bits == 2 then LEVELS_2_BIT else LEVELS_3_BIT
  }

  function SaturatingMul(a: nat, b: nat): nat {
    if a * b <= USIZE_MAX then a * b else USIZE_MAX
  }

  function PackedLen(count: nat, bits: nat): nat {
    (SaturatingMul(count, bits) + 7) / 8
  }

  // ---- Bits of bytes -----------------------------------------------------------------------

  function Mask(k: nat): bv8
    requires k < 8
  {
    match k
    case 0 => 1
    case 1 => 2
    case 2 => 4
    case 3 => 8
    case 4 => 16
    case 5 => 32
    case 6 => 64
    case 7 => 128
  }

  predicate Bit(byte: bv8, k: nat)
    requires k < 8
  {
    byte & Mask(k) != 0
  }

  /** Bit `j` of a packed stream, least significant first. */
  predicate StreamBit(packed: seq<bv8>, j: nat)
    requires j < 8 * |packed|
  {
    Bit(packed[j / 8], j % 8)
  }

  lemma MaskBits(k: nat, other: nat)
    requires k < 8 && other < 8
    ensures Bit(Mask(k), other) <==> k == other
  {
  }

  lemma OrBits(x: bv8, y: bv8, k: nat)
    requires k < 8
    ensures Bit(x | y, k) <==> Bit(x, k) || Bit(y, k)
  {
  }

  lemma ZeroBits(k: nat)
    requires k < 8
    ensures !Bit(0, k)
  {
  }

  /** The value OR-ed into the output: bit `bit` of the code, moved to `position`. */
  lemma MovedBit(code: bv8, bit: nat, position: nat)
    requires bit < 3 && position < 8
    ensures ((code >> bit) & 1) << position == if Bit(code, bit) then Mask(position) else 0
  {
  }

  lemma SameBitsSameByte(x: bv8, y: bv8)
    requires forall k :: 0 <= k < 8 ==> (Bit(x, k) <==> Bit(y, k))
    ensures x == y
  {
    assert Bit(x, 0) <==> Bit(y, 0);
    assert Bit(x, 1) <==> Bit(y, 1);
    assert Bit(x, 2) <==> Bit(y, 2);
    assert Bit(x, 3) <==> Bit(y, 3);
    assert Bit(x, 4) <==> Bit(y, 4);
    assert Bit(x, 5) <==> Bit(y, 5);
    assert Bit(x, 6) <==> Bit(y, 6);
    assert Bit(x, 7) <==> Bit(y, 7);
  }

  // ---- The 16-bit window -------------------------------------------------------------------

  function Mask16(k: nat): bv16
    requires k < 16
  {
    match k
    case 0 => 1
    case 1 => 2
    case 2 => 4
    case 3 => 8
    case 4 => 16
    case 5 => 32
    case 6 => 64
    case 7 => 128
    case 8 => 256
    case 9 => 512
    case 10 => 1024
    case 11 => 2048
    case 12 => 4096
    case 13 => 8192
    case 14 => 16384
    case 15 => 32768
  }

  predicate Bit16(word: bv16, k: nat)
    requires k < 16
  {
    word & Mask16(k) != 0
  }

  function Window(lo: bv8, hi: bv8): bv16 {
    (lo as bv16) | ((hi as bv16) << 8)
  }

  /** `bits` bits of the window, starting at `position`. */
  function Extract(window: bv16, position: nat, bits: nat): bv8
    requires position < 8 && Supported(bits)
  {
    LowBits(ShiftRight(window, position), bits)
  }

  function LowBits(word: bv16, bits: nat): bv8
    requires Supported(bits)
  {
    (word & CodeMask(bits)) as bv8
  }

  function CodeMask(bits: nat): bv16
    requires Supported(bits)
  {
    if bits == 2 then 3 else 7
  }

  /** `CodeMask` and `ShiftRight` are the shifts of the decoder, by cases on the amount. */
  lemma CodeMaskIsShift(bits: nat)
    requires Supported(bits)
    ensures CodeMask(bits) == (1 << bits) - 1
  {
    if bits == 2 { assert (1 as bv16) << bits == 1 << 2; return; }
    assert (1 as bv16) << bits == 1 << 3;
  }

  lemma WindowLow(lo: bv8, hi: bv8, k: nat)
    requires k < 8
    ensures Bit16(Window(lo, hi), k) <==> Bit(lo, k)
  {
  }

  lemma WindowHigh(lo: bv8, hi: bv8, k: nat)
    requires 8 <= k < 16
    ensures Bit16(Window(lo, hi), k) <==> Bit(hi, k - 8)
  {
  }

  function ShiftRight(word: bv16, position: nat): bv16
    requires position < 8
  {
    match position
    case 0 => word
    case 1 => word >> 1
    case 2 => word >> 2
    case 3 => word >> 3
    case 4 => word >> 4
    case 5 => word >> 5
    case 6 => word >> 6
    case 7 => word >> 7
  }

  lemma ShiftRightIsShift(word: bv16, position: nat)
    requires position < 8
    ensures word >> position == ShiftRight(word, position)
  {
    if position == 0 { assert word >> position == word >> 0; return; }
    if position == 1 { assert word >> position == word >> 1; return; }
    if position == 2 { assert word >> position == word >> 2; return; }
    if position == 3 { assert word >> position == word >> 3; return; }
    if position == 4 { assert word >> position == word >> 4; return; }
    if position == 5 { assert word >> position == word >> 5; return; }
    if position == 6 { assert word >> position == word >> 6; return; }
  }

  lemma ShiftedWord(word: bv16, position: nat, b: nat)
    requires position < 8 && b < 3
    ensures Bit16(ShiftRight(word, position), b) <==> Bit16(word, position + b)
  {
  }

  lemma LowBitsOnly(word: bv16, bits: nat, b: nat)
    requires Supported(bits) && b < 8
    ensures Bit(LowBits(word, bits), b) <==> b < bits && Bit16(word, b)
  {
  }

  /** Extraction reads the next `bits` bits of the window and nothing else. */
  lemma ExtractBits(word: bv16, position: nat, bits: nat, b: nat)
    requires position < 8 && Supported(bits) && b < 8
    ensures Bit(Extract(word, position, bits), b) <==> b < bits && Bit16(word, position + b)
  {
    LowBitsOnly(ShiftRight(word, position), bits, b);
    if b < bits {
      ShiftedWord(word, position, b);
    }
  }

  /** Value `index` of a packed stream, read through the window; past the end the high
      byte reads as zero. */
  function UnpackCode(packed: seq<bv8>, index: nat, bits: nat): bv8
    requires Supported(bits) && (index + 1) * bits <= 8 * |packed|
  {
    var at := index * bits;
    var hi := if at / 8 + 1 < |packed| then packed[at / 8 + 1] else 0;
    Extract(Window(packed[at / 8], hi), at % 8, bits)
  }

  lemma BitPlace(at: nat, b: nat)
    requires b < 8
    ensures at % 8 + b < 8 ==> (at + b) / 8 == at / 8 && (at + b) % 8 == at % 8 + b
    ensures at % 8 + b >= 8 ==> (at + b) / 8 == at / 8 + 1 && (at + b) % 8 == at % 8 + b - 8
  {
  }

  /** A bit of the window over byte `at / 8` is a bit of the stream. */
  lemma WindowBit(packed: seq<bv8>, at: nat, b: nat, hi: bv8)
    requires b < 8 && at + b < 8 * |packed|
    requires hi == if at / 8 + 1 < |packed| then packed[at / 8 + 1] else 0
    ensures Bit16(Window(packed[at / 8], hi), at % 8 + b) <==> StreamBit(packed, at + b)
  {
    BitPlace(at, b);
    if at % 8 + b < 8 {
      WindowLow(packed[at / 8], hi, at % 8 + b);
    } else {
      WindowHigh(packed[at / 8], hi, at % 8 + b);
    }
  }

  lemma UnpackedBits(packed: seq<bv8>, index: nat, bits: nat, b: nat)
    requires Supported(bits) && (index + 1) * bits <= 8 * |packed| && b < 8
    ensures Bit(UnpackCode(packed, index, bits), b) <==> b < bits && StreamBit(packed, index * bits + b)
  {
    UnpackedBitsAt(packed, index * bits, bits, b);
  }

  lemma UnpackedBitsAt(packed: seq<bv8>, at: nat, bits: nat, b: nat)
    requires Supported(bits) && at + bits <= 8 * |packed| && b < 8
    ensures var hi := if at / 8 + 1 < |packed| then packed[at / 8 + 1] else 0;
      Bit(Extract(Window(packed[at / 8], hi), at % 8, bits), b) <==> b < bits && StreamBit(packed, at + b)
  {
    var hi := if at / 8 + 1 < |packed| then packed[at / 8 + 1] else 0;
    ExtractBits(Window(packed[at / 8], hi), at % 8, bits, b);
    if b < bits {
      WindowBit(packed, at, b, hi);
    }
  }

  // ---- Streams of codes ----------------------------------------------------------------------

  function BitsOf(code: bv8, bits: nat): seq<bool>
    requires Supported(bits)
  {
    seq(bits, b requires 0 <= b < bits => Bit(code, b))
  }

  function CodeStream(codes: seq<bv8>, bits: nat): seq<bool>
    requires Supported(bits)
  {
    if codes == [] then []
    else CodeStream(codes[..|codes| - 1], bits) + BitsOf(codes[|codes| - 1], bits)
  }

  lemma {:induction false} CodeStreamLength(codes: seq<bv8>, bits: nat)
    requires Supported(bits)
    ensures |CodeStream(codes, bits)| == |codes| * bits
  {
    if codes != [] {
      CodeStreamLength(codes[..|codes| - 1], bits);
      assert bits == 2 || bits == 3;
    }
  }

  lemma {:induction false} CodeStreamAt(codes: seq<bv8>, bits: nat, index: nat, b: nat)
    requires Supported(bits) && index < |codes| && b < bits
    ensures |CodeStream(codes, bits)| == |codes| * bits && index * bits + b < |codes| * bits
    ensures CodeStream(codes, bits)[index * bits + b] <==> Bit(codes[index], b)
  {
    var n := |codes| - 1;
    CodeStreamLength(codes[..n], bits);
    CodeStreamLength(codes, bits);
    assert bits == 2 || bits == 3;
    if index < n {
      CodeStreamAt(codes[..n], bits, index, b);
    }
  }

  /** The bytes hold exactly `stream`, with every bit after it zero. */
  ghost predicate Packs(packed: seq<bv8>, stream: seq<bool>) {
    && |stream| <= 8 * |packed|
    && forall j :: 0 <= j < 8 * |packed| ==> (StreamBit(packed, j) <==> j < |stream| && stream[j])
  }

  lemma AppendBitAt(packed: seq<bv8>, stream: seq<bool>, value: bool, updated: bv8, j: nat)
    requires Packs(packed, stream) && |stream| < 8 * |packed| && j < 8 * |packed|
    requires Bit(updated, j % 8) <==> Bit(packed[|stream| / 8], j % 8) || (value && j % 8 == |stream| % 8)
    ensures StreamBit(packed[|stream| / 8 := updated], j) <==> j < |stream| + 1 && (stream + [value])[j]
  {
    assert StreamBit(packed, j) <==> j < |stream| && stream[j];
  }

  /** OR-ing one bit in at the end of the stream appends it and disturbs no other bit. */
  lemma AppendBit(packed: seq<bv8>, stream: seq<bool>, value: bool, moved: bv8)
    requires Packs(packed, stream) && |stream| < 8 * |packed|
    requires forall k :: 0 <= k < 8 ==> (Bit(moved, k) <==> value && k == |stream| % 8)
    ensures Packs(packed[|stream| / 8 := packed[|stream| / 8] | moved], stream + [value])
  {
    var byte := packed[|stream| / 8];
    var packed' := packed[|stream| / 8 := byte | moved];
    forall j | 0 <= j < 8 * |packed|
      ensures StreamBit(packed', j) <==> j < |stream| + 1 && (stream + [value])[j]
    {
      OrBits(byte, moved, j % 8);
      AppendBitAt(packed, stream, value, byte | moved, j);
    }
  }

  lemma MovedBits(code: bv8, bit: nat, position: nat, k: nat)
    requires bit < 3 && position < 8 && k < 8
    ensures Bit(((code >> bit) & 1) << position, k) <==> Bit(code, bit) && k == position
  {
    MovedBit(code, bit, position);
    MaskBits(position, k);
    ZeroBits(k);
  }

  lemma ZeroStream(packed: seq<bv8>)
    requires forall k :: 0 <= k < |packed| ==> packed[k] == 0
    ensures Packs(packed, [])
  {
    forall j | 0 <= j < 8 * |packed|
      ensures !StreamBit(packed, j)
    {
      ZeroBits(j % 8);
    }
  }

  /** Codes within the bit rate. */
  predicate Fits(code: bv8, bits: nat) {
    bits < 8 && forall b :: bits <= b < 8 ==> !Bit(code, b)
  }

  /** Reading value `index` returns exactly the code written for it, wherever it straddles. */
  lemma UnpackReadsWrittenCode(packed: seq<bv8>, codes: seq<bv8>, bits: nat, index: nat)
    requires Supported(bits) && Packs(packed, CodeStream(codes, bits))
    requires index < |codes| && Fits(codes[index], bits)
    ensures (index + 1) * bits <= 8 * |packed| && UnpackCode(packed, index, bits) == codes[index]
  {
    CodeStreamLength(codes, bits);
    assert (index + 1) * bits <= |codes| * bits;
    forall b | 0 <= b < 8
      ensures Bit(UnpackCode(packed, index, bits), b) <==> Bit(codes[index], b)
    {
      UnpackedBits(packed, index, bits, b);
      if b < bits {
        CodeStreamAt(codes, bits, index, b);
      }
    }
    SameBitsSameByte(UnpackCode(packed, index, bits), codes[index]);
  }

  /** The bits of a stream determine its bytes. */
  lemma SameStreamSameBytes(a: seq<bv8>, b: seq<bv8>)
    requires |a| == |b|
    requires forall j :: 0 <= j < 8 * |a| ==> (StreamBit(a, j) <==> StreamBit(b, j))
    ensures a == b
  {
    forall k | 0 <= k < |a|
      ensures a[k] == b[k]
    {
      forall bit | 0 <= bit < 8
        ensures Bit(a[k], bit) <==> Bit(b[k], bit)
      {
        assert (8 * k + bit) / 8 == k && (8 * k + bit) % 8 == bit;
        assert StreamBit(a, 8 * k + bit) <==> StreamBit(b, 8 * k + bit);
      }
      SameBitsSameByte(a[k], b[k]);
    }
  }

  // ---- Quantization ------------------------------------------------------------------------

  function Distance(x: real, y: real): real {
    if x >= y then x - y else y - x
  }

  /** `code` is a level no farther from `value` than any other, and the first such. */
  ghost predicate IsNearest(value: real, levels: seq<real>, code: nat) {
    && code < |levels|
    && (forall k :: 0 <= k < |levels| ==> Distance(value, levels[code]) <= Distance(value, levels[k]))
    && (forall k :: 0 <= k < code ==> Distance(value, levels[code]) < Distance(value, levels[k]))
  }

  lemma CodeRoundTrip(i: nat)
    requires i < 8
    ensures (i as bv8) as nat == i
    ensures i < 4 ==> Fits(i as bv8, 2)
    ensures Fits(i as bv8, 3)
  {
  }

  method NearestCode(value: real, levels: seq<real>) returns (code: bv8)
    requires 0 < |levels| <= 8
    ensures IsNearest(value, levels, code as nat)
  {
    code := 0;
    var best := Distance(value, levels[0]);
    for i := 1 to |levels|
      invariant (code as nat) < i && best == Distance(value, levels[code as nat])
      invariant forall k :: 0 <= k < i ==> best <= Distance(value, levels[k])
      invariant forall k :: 0 <= k < code as nat ==> best < Distance(value, levels[k])
    {
      var d := Distance(value, levels[i]);
      if d < best {
        CodeRoundTrip(i);
        best, code := d, i as bv8;
      }
    }
  }

  lemma BitsOfNext(code: bv8, bits: nat, bit: nat)
    requires Supported(bits) && bit < bits
    ensures BitsOf(code, bits)[..bit + 1] == BitsOf(code, bits)[..bit] + [Bit(code, bit)]
  {
  }

  /** Bit `bit` of the code, moved to `position` of an otherwise zero byte. */
  method MoveBit(code: bv8, bit: nat, position: nat) returns (moved: bv8)
    requires bit < 3 && position < 8
    ensures forall k :: 0 <= k < 8 ==> (Bit(moved, k) <==> Bit(code, bit) && k == position)
  {
    moved := ((code >> bit) & 1) << position;
    forall k | 0 <= k < 8
      ensures Bit(moved, k) <==> Bit(code, bit) && k == position
    {
      MovedBits(code, bit, position, k);
    }
  }

  /** Packs one bit of a code at the current end of the stream. */
  method WriteBit(output: array<bv8>, target: nat, code: bv8, bit: nat, ghost stream: seq<bool>)
    requires target == |stream| < 8 * output.Length && bit < 3
    requires Packs(output[..], stream)
    modifies output
    ensures Packs(output[..], stream + [Bit(code, bit)])
  {
    var moved := MoveBit(code, bit, target % 8);
    AppendBit(output[..], stream, Bit(code, bit), moved);
    var byte := target / 8;
    ghost var after := output[..][byte := output[byte] | moved];
    output[byte] := output[byte] | moved;
    assert output[..] == after;
  }

  /** Packs one code at the current end of the stream. */
  method WriteCode(output: array<bv8>, at: nat, code: bv8, bits: nat, ghost stream: seq<bool>)
    requires Supported(bits) && at == |stream| && at + bits <= 8 * output.Length
    requires Packs(output[..], stream)
    modifies output
    ensures Packs(output[..], stream + BitsOf(code, bits))
  {
    ghost var written := stream;
    for bit := 0 to bits
      invariant written == stream + BitsOf(code, bits)[..bit]
      invariant Packs(output[..], written)
    {
      WriteBit(output, at + bit, code, bit, written);
      BitsOfNext(code, bits, bit);
      written := written + [Bit(code, bit)];
    }
    assert BitsOf(code, bits)[..bits] == BitsOf(code, bits);
  }

  // ---- Compression and decoding --------------------------------------------------------------

  lemma PackedLenCovers(count: nat, bits: nat)
    requires Supported(bits) && count * bits <= USIZE_MAX
    ensures count * bits <= 8 * PackedLen(count, bits) < count * bits + 8
  {
  }

  /** What a compressed vector is: for every value a nearest code where the window reads
      it, and zero padding. */
  ghost predicate Compressed(input: seq<real>, bits: nat, packed: seq<bv8>)
    requires Supported(bits)
  {
    && |packed| == PackedLen(|input|, bits)
    && (forall i :: 0 <= i < |input| ==>
          (i + 1) * bits <= 8 * |packed| && IsNearest(input[i], Levels(bits), UnpackCode(packed, i, bits) as nat))
    && (forall j :: |input| * bits <= j < 8 * |packed| ==> !StreamBit(packed, j))
  }

  ghost predicate NearestCodes(input: seq<real>, bits: nat, codes: seq<bv8>)
    requires Supported(bits)
  {
    && |codes| <= |input|
    && forall i :: 0 <= i < |codes| ==> Fits(codes[i], bits) && IsNearest(input[i], Levels(bits), codes[i] as nat)
  }

  lemma PackedIsCompressed(input: seq<real>, bits: nat, packed: seq<bv8>, codes: seq<bv8>)
    requires Supported(bits) && |packed| == PackedLen(|input|, bits) && |codes| == |input|
    requires Packs(packed, CodeStream(codes, bits))
    requires NearestCodes(input, bits, codes)
    ensures Compressed(input, bits, packed)
  {
    CodeStreamLength(codes, bits);
    forall i | 0 <= i < |input|
      ensures (i + 1) * bits <= 8 * |packed| && IsNearest(input[i], Levels(bits), UnpackCode(packed, i, bits) as nat)
    {
      UnpackReadsWrittenCode(packed, codes, bits, i);
    }
  }

  lemma NearestFits(value: real, bits: nat, code: bv8)
    requires Supported(bits) && IsNearest(value, Levels(bits), code as nat)
    ensures Fits(code, bits)
  {
    CodeRoundTrip(code as nat);
  }

  method CompressValues(input: seq<real>, bits: nat) returns (r: Result<seq<bv8>, Error>)
    requires 4 * |input| <= USIZE_MAX / 2
    ensures r.Ok? <==> bits in {2, 3}
    ensures if Supported(bits) then r.Ok? && Compressed(input, bits, r.value) else r == Err(UnsupportedBitRate(bits))
  {
    if !Supported(bits) {
      return Err(UnsupportedBitRate(bits));
    }
    var output := new bv8[PackedLen(|input|, bits)](_ => 0);
    ZeroStream(output[..]);
    ghost var codes := PackNearest(input, bits, output);
    PackedIsCompressed(input, bits, output[..], codes);
    return Ok(output[..]);
  }

  /** The packing loop: the nearest code of every value, one after another. */
  method PackNearest(input: seq<real>, bits: nat, output: array<bv8>) returns (ghost codes: seq<bv8>)
    requires Supported(bits) && |input| * bits <= USIZE_MAX
    requires output.Length == PackedLen(|input|, bits) && Packs(output[..], [])
    modifies output
    ensures |codes| == |input| && NearestCodes(input, bits, codes)
    ensures Packs(output[..], CodeStream(codes, bits))
  {
    var bitIndex := 0;
    codes := [];
    for i := 0 to |input|
      invariant |codes| == i && bitIndex == |CodeStream(codes, bits)| && NearestCodes(input, bits, codes)
      invariant Packs(output[..], CodeStream(codes, bits))
    {
      var code := NearestCode(input[i], Levels(bits));
      CodeAppended(codes, code, bits);
      NearestAppended(input, bits, codes, code);
      StreamRoom(codes, bits, |input|);
      WriteCode(output, bitIndex, code, bits, CodeStream(codes, bits));
      codes := codes + [code];
      bitIndex := bitIndex + bits;
    }
  }

  lemma CodeAppended(codes: seq<bv8>, code: bv8, bits: nat)
    requires Supported(bits)
    ensures CodeStream(codes + [code], bits) == CodeStream(codes, bits) + BitsOf(code, bits)
    ensures |CodeStream(codes + [code], bits)| == |CodeStream(codes, bits)| + bits
  {
    assert (codes + [code])[..|codes|] == codes;
  }

  lemma NearestAppended(input: seq<real>, bits: nat, codes: seq<bv8>, code: bv8)
    requires Supported(bits) && NearestCodes(input, bits, codes) && |codes| < |input|
    requires IsNearest(input[|codes|], Levels(bits), code as nat)
    ensures NearestCodes(input, bits, codes + [code])
  {
    NearestFits(input[|codes|], bits, code);
  }

  lemma StreamRoom(codes: seq<bv8>, bits: nat, count: nat)
    requires Supported(bits) && |codes| < count && count * bits <= USIZE_MAX
    ensures |CodeStream(codes, bits)| + bits <= 8 * PackedLen(count, bits)
  {
    PackedLenCovers(count, bits);
    CodeStreamLength(codes, bits);
    assert (|codes| + 1) * bits <= count * bits;
  }

  /** What sparse decoding returns at one position. */
  function DecodedAt(packed: seq<bv8>, bits: nat, attention: seq<real>, threshold: real, i: nat): real
    requires Supported(bits) && i < |attention| && (i + 1) * bits <= 8 * |packed|
  {
    var code := UnpackCode(packed, i, bits) as nat;
    UnpackedCodeIsLevel(packed, i, bits);
    if attention[i] < threshold then 0.0 else Levels(bits)[code]
  }

  lemma UnpackedCodeIsLevel(packed: seq<bv8>, i: nat, bits: nat)
    requires Supported(bits) && (i + 1) * bits <= 8 * |packed|
    ensures UnpackCode(packed, i, bits) as nat < |Levels(bits)|
  {
  }

  method DecompressValuesSparse(packed: seq<bv8>, count: nat, bits: nat, attention: seq<real>, threshold: real)
    returns (r: Result<seq<real>, Error>)
    requires 4 * |attention| <= USIZE_MAX / 2
    ensures |attention| != count ==> r == Err(AttentionLengthMismatch(count, |attention|))
    ensures |attention| == count && bits !in {2, 3} ==> r == Err(UnsupportedBitRate(bits))
    ensures |attention| == count && bits in {2, 3} && |packed| != PackedLen(count, bits) ==>
      r == Err(PackedLengthMismatch(PackedLen(count, bits), |packed|))
    ensures |attention| == count && bits in {2, 3} && |packed| == PackedLen(count, bits) ==>
      && r.Ok? && |r.value| == count
      && forall i :: 0 <= i < count ==>
           (i + 1) * bits <= 8 * |packed| && r.value[i] == DecodedAt(packed, bits, attention, threshold, i)
  {
    if |attention| != count {
      return Err(AttentionLengthMismatch(count, |attention|));
    }
    if !Supported(bits) {
      return Err(UnsupportedBitRate(bits));
    }
    if |packed| != PackedLen(count, bits) {
      return Err(PackedLengthMismatch(PackedLen(count, bits), |packed|));
    }
    PackedLenCovers(count, bits);
    var output := new real[count](_ => 0.0);
    for i := 0 to count
      invariant forall k :: 0 <= k < i ==>
        (k + 1) * bits <= 8 * |packed| && output[k] == DecodedAt(packed, bits, attention, threshold, k)
      invariant forall k :: i <= k < count ==> output[k] == 0.0
    {
      assert (i + 1) * bits <= count * bits;
      if attention[i] < threshold {
        continue;
      }
      UnpackedCodeIsLevel(packed, i, bits);
      output[i] := Levels(bits)[UnpackCode(packed, i, bits) as nat];
    }
    return Ok(output[..]);
  }

  // ---- What the pair guarantees ---------------------------------------------------------------

  lemma NearestIsUnique(value: real, levels: seq<real>, a: nat, b: nat)
    requires IsNearest(value, levels, a) && IsNearest(value, levels, b)
    ensures a == b
  {
    assert Distance(value, levels[a]) <= Distance(value, levels[b]);
    assert Distance(value, levels[b]) <= Distance(value, levels[a]);
  }

  /** Between two neighbouring levels the nearest one is within half their gap. */
  lemma {:induction false} NearestWithinHalfGap(value: real, levels: seq<real>, code: nat, half: real, last: nat)
    requires IsNearest(value, levels, code) && 0 < last < |levels|
    requires levels[0] <= value <= levels[last]
    requires forall k :: 0 <= k < |levels| - 1 ==> levels[k + 1] - levels[k] <= 2.0 * half
    ensures Distance(value, levels[code]) <= half
  {
    if value >= levels[last - 1] {
      assert levels[(last - 1) + 1] - levels[last - 1] <= 2.0 * half;
      assert Distance(value, levels[last]) <= half || Distance(value, levels[last - 1]) <= half;
    } else {
      NearestWithinHalfGap(value, levels, code, half, last - 1);
    }
  }

  function HalfGap(bits: nat): real
    requires Supported(bits)
  {
    if bits == 2 then 0.33333334 else 0.14285715
  }

  /** Decoding what was compressed: a level no farther from the input than any other where
      attention reaches the threshold, within half the largest gap for inputs in [-1, 1],
      and zero elsewhere. */
  lemma DecodedIsNearest(input: seq<real>, bits: nat, packed: seq<bv8>, attention: seq<real>, threshold: real, i: nat)
    requires Supported(bits) && Compressed(input, bits, packed)
    requires |attention| == |input| && i < |input|
    ensures (i + 1) * bits <= 8 * |packed|
    ensures var decoded := DecodedAt(packed, bits, attention, threshold, i);
      if attention[i] < threshold then decoded == 0.0
      else
        && decoded in Levels(bits)
        && (forall k :: 0 <= k < |Levels(bits)| ==> Distance(input[i], decoded) <= Distance(input[i], Levels(bits)[k]))
        && (-1.0 <= input[i] <= 1.0 ==> Distance(input[i], decoded) <= HalfGap(bits))
  {
    assert IsNearest(input[i], Levels(bits), UnpackCode(packed, i, bits) as nat);
    var code := UnpackCode(packed, i, bits) as nat;
    if attention[i] >= threshold && -1.0 <= input[i] <= 1.0 {
      NearestWithinHalfGap(input[i], Levels(bits), code, HalfGap(bits), |Levels(bits)| - 1);
    }
  }

  lemma SameCode(input: seq<real>, bits: nat, a: seq<bv8>, b: seq<bv8>, i: nat)
    requires Supported(bits) && Compressed(input, bits, a) && Compressed(input, bits, b) && i < |input|
    ensures (i + 1) * bits <= 8 * |a| && (i + 1) * bits <= 8 * |b|
    ensures UnpackCode(a, i, bits) == UnpackCode(b, i, bits)
  {
    var value := input[i];
    NearestIsUnique(value, Levels(bits), UnpackCode(a, i, bits) as nat, UnpackCode(b, i, bits) as nat);
    SameCodeNumber(UnpackCode(a, i, bits), UnpackCode(b, i, bits));
  }

  lemma SameCodeNumber(x: bv8, y: bv8)
    requires x as nat == y as nat
    ensures x == y
  {
  }

  lemma SameStreamBit(input: seq<real>, bits: nat, a: seq<bv8>, b: seq<bv8>, i: nat, k: nat)
    requires Supported(bits) && Compressed(input, bits, a) && Compressed(input, bits, b)
    requires i < |input| && k < bits
    ensures i * bits + k < 8 * |a| && |a| == |b|
    ensures StreamBit(a, i * bits + k) <==> StreamBit(b, i * bits + k)
  {
    SameCode(input, bits, a, b, i);
    UnpackedBits(a, i, bits, k);
    UnpackedBits(b, i, bits, k);
  }

  /** A vector has only one compressed form. */
  lemma CompressedIsUnique(input: seq<real>, bits: nat, a: seq<bv8>, b: seq<bv8>)
    requires Supported(bits) && Compressed(input, bits, a) && Compressed(input, bits, b)
    ensures a == b
  {
    forall j | 0 <= j < 8 * |a|
      ensures StreamBit(a, j) <==> StreamBit(b, j)
    {
      if j < |input| * bits {
        assert j == (j / bits) * bits + j % bits && j / bits < |input|;
        SameStreamBit(input, bits, a, b, j / bits, j % bits);
      }
    }
    SameStreamSameBytes(a, b);
  }

  lemma LevelIsItsOwnNearest(bits: nat, code: nat)
    requires Supported(bits) && code < |Levels(bits)|
    ensures IsNearest(Levels(bits)[code], Levels(bits), code)
  {
  }

  /** What the bytes of a fully decoded vector miss of being its compressed form. */
  lemma DecodedFrom(packed: seq<bv8>, bits: nat, decoded: seq<real>)
    requires Supported(bits) && |decoded| * bits <= USIZE_MAX && |packed| == PackedLen(|decoded|, bits)
    requires forall i :: 0 <= i < |decoded| ==>
      (i + 1) * bits <= 8 * |packed| && UnpackCode(packed, i, bits) as nat < |Levels(bits)|
      && decoded[i] == Levels(bits)[UnpackCode(packed, i, bits) as nat]
    ensures Compressed(decoded, bits, packed) <==>
      forall j :: |decoded| * bits <= j < 8 * |packed| ==> !StreamBit(packed, j)
  {
    forall i | 0 <= i < |decoded|
      ensures IsNearest(decoded[i], Levels(bits), UnpackCode(packed, i, bits) as nat)
    {
      LevelIsItsOwnNearest(bits, UnpackCode(packed, i, bits) as nat);
    }
  }

  /** Compressing a fully decoded vector reproduces the bytes exactly when their padding
      bits were zero, as compression always leaves them. */
  lemma RecompressionExactly(packed: seq<bv8>, bits: nat, decoded: seq<real>, again: seq<bv8>)
    requires Supported(bits) && |decoded| * bits <= USIZE_MAX && |packed| == PackedLen(|decoded|, bits)
    requires forall i :: 0 <= i < |decoded| ==>
      (i + 1) * bits <= 8 * |packed| && UnpackCode(packed, i, bits) as nat < |Levels(bits)|
      && decoded[i] == Levels(bits)[UnpackCode(packed, i, bits) as nat]
    requires Compressed(decoded, bits, again)
    ensures again == packed <==> forall j :: |decoded| * bits <= j < 8 * |packed| ==> !StreamBit(packed, j)
  {
    DecodedFrom(packed, bits, decoded);
    if Compressed(decoded, bits, packed) {
      CompressedIsUnique(decoded, bits, again, packed);
    }
  }
}
