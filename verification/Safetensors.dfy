/**
 Safetensors transfer: a file is cut into self-describing chunks as reads return, and each
 chunk is copied into a landing zone wherever its header says.
 */
module Safetensors {
  import opened Wrappers

  type byte = n: int | 0 <= n < 256

  const U32_MAX: nat := 0xFFFF_FFFF
  const U64_MAX: nat := 0xFFFF_FFFF_FFFF_FFFF
  const HEADER_LEN: nat := 12

  datatype Error = ZeroChunkSize | ChunkTooLarge | MissingHeader | LengthMismatch | RangeOverflow | OutOfRange

  // ---- Little-endian fields ------------------------------------------------------------------

  function Pow256(width: nat): nat {
    if width == 0 then 1 else 256 * Pow256(width - 1)
  }

  function ToLittleEndian(n: nat, width: nat): (bytes: seq<byte>)
    ensures |bytes| == width
  {
    if width == 0 then [] else [n % 256] + ToLittleEndian(n / 256, width - 1)
  }

  function FromLittleEndian(bytes: seq<byte>): nat {
    if bytes == [] then 0 else bytes[0] + 256 * FromLittleEndian(bytes[1..])
  }

  lemma {:induction false} LittleEndianRoundTrip(n: nat, width: nat)
    requires n < Pow256(width)
    ensures FromLittleEndian(ToLittleEndian(n, width)) == n
  {
    if width > 0 {
      LittleEndianRoundTrip(n / 256, width - 1);
      assert ToLittleEndian(n, width)[1..] == ToLittleEndian(n / 256, width - 1);
    }
  }

  lemma FieldWidths()
    ensures Pow256(4) == U32_MAX + 1 && Pow256(8) == U64_MAX + 1
  {
    assert Pow256(2) == 65536;
    assert Pow256(4) == 65536 * 65536;
    assert Pow256(6) == Pow256(4) * 65536;
  }

  // ---- Chunks ----------------------------------------------------------------------------------

  function EncodeChunk(offset: nat, payload: seq<byte>): Result<seq<byte>, Error> {
    if |payload| > U32_MAX then Err(ChunkTooLarge)
    else Ok(ToLittleEndian(offset, 8) + ToLittleEndian(|payload|, 4) + payload)
  }

  /** Where a chunk goes in a landing zone of `length` bytes, or why it is refused. */
  function DecodeChunk(encoded: seq<byte>, length: nat): Result<(nat, seq<byte>), Error> {
    if |encoded| < HEADER_LEN then Err(MissingHeader)
    else
      var offset, size := FromLittleEndian(encoded[..8]), FromLittleEndian(encoded[8..12]);
      var payload := encoded[HEADER_LEN..];
      if |payload| != size then Err(LengthMismatch)
      else if offset + |payload| > U64_MAX then Err(RangeOverflow)
      else if offset + |payload| > length then Err(OutOfRange)
      else Ok((offset, payload))
  }

  /** What decoding says of a well-formed chunk: its place and payload when the zone has room for
      them, and otherwise why not. */
  lemma ChunkDecodes(offset: nat, payload: seq<byte>, length: nat)
    requires offset <= U64_MAX && |payload| <= U32_MAX
    ensures EncodeChunk(offset, payload).Ok?
    ensures DecodeChunk(EncodeChunk(offset, payload).value, length) ==
      if offset + |payload| > U64_MAX then Err(RangeOverflow)
      else if offset + |payload| > length then Err(OutOfRange)
      else Ok((offset, payload))
  {
    FieldWidths();
    LittleEndianRoundTrip(offset, 8);
    LittleEndianRoundTrip(|payload|, 4);
    var encoded := EncodeChunk(offset, payload).value;
    assert encoded[..8] == ToLittleEndian(offset, 8);
    assert encoded[8..12] == ToLittleEndian(|payload|, 4);
    assert encoded[12..] == payload;
  }

  /** A chunk decodes to exactly what was encoded, in every zone it fits. */
  lemma ChunkRoundTrip(offset: nat, payload: seq<byte>, length: nat)
    requires |payload| <= U32_MAX && offset + |payload| <= length <= U64_MAX
    ensures EncodeChunk(offset, payload).Ok?
    ensures DecodeChunk(EncodeChunk(offset, payload).value, length) == Ok((offset, payload))
  {
    ChunkDecodes(offset, payload, length);
  }

  lemma {:induction false} LittleEndianInverse(bytes: seq<byte>)
    ensures FromLittleEndian(bytes) < Pow256(|bytes|)
    ensures ToLittleEndian(FromLittleEndian(bytes), |bytes|) == bytes
  {
    if bytes != [] {
      LittleEndianInverse(bytes[1..]);
    }
  }

  predicate WellFormed(encoded: seq<byte>) {
    |encoded| >= 12 && FromLittleEndian(encoded[8..12]) == |encoded| - 12
  }

  lemma OffsetField(bytes: seq<byte>)
    requires |bytes| == 8
    ensures FromLittleEndian(bytes) <= U64_MAX && ToLittleEndian(FromLittleEndian(bytes), 8) == bytes
  {
    FieldWidths();
    LittleEndianInverse(bytes);
  }

  lemma LengthField(bytes: seq<byte>)
    requires |bytes| == 4
    ensures FromLittleEndian(bytes) <= U32_MAX && ToLittleEndian(FromLittleEndian(bytes), 4) == bytes
  {
    FieldWidths();
    LittleEndianInverse(bytes);
  }

  lemma WellFormedIsEncoded(encoded: seq<byte>)
    requires WellFormed(encoded)
    ensures FromLittleEndian(encoded[..8]) <= U64_MAX
    ensures EncodeChunk(FromLittleEndian(encoded[..8]), encoded[12..]) == Ok(encoded)
  {
    var offset, length, payload := encoded[..8], encoded[8..12], encoded[12..];
    OffsetField(offset);
    LengthField(length);
    assert |payload| == FromLittleEndian(length);
    assert encoded == offset + length + payload;
  }

  /** Bytes whose header is missing or whose length field is wrong are exactly those no encoder
      produces. */
  lemma RefusedIsNoChunk(encoded: seq<byte>, length: nat)
    ensures DecodeChunk(encoded, length) == Err(MissingHeader) <==> |encoded| < 12
    ensures DecodeChunk(encoded, length) in {Err(MissingHeader), Err(LengthMismatch)} <==>
      forall offset: nat, payload {:trigger EncodeChunk(offset, payload)} :: offset <= U64_MAX ==>
        EncodeChunk(offset, payload) != Ok(encoded)
  {
    RefusedIsMalformed(encoded, length);
    if WellFormed(encoded) {
      WellFormedIsEncoded(encoded);
    }
    forall offset: nat, payload {:trigger EncodeChunk(offset, payload)} |
      offset <= U64_MAX && EncodeChunk(offset, payload) == Ok(encoded)
      ensures WellFormed(encoded)
    {
      ChunkDecodes(offset, payload, length);
    }
  }

  lemma RefusedIsMalformed(encoded: seq<byte>, length: nat)
    ensures DecodeChunk(encoded, length) == Err(MissingHeader) <==> |encoded| < 12
    ensures DecodeChunk(encoded, length) in {Err(MissingHeader), Err(LengthMismatch)} <==> !WellFormed(encoded)
  {
  }

  function Overwrite(zone: seq<byte>, offset: nat, payload: seq<byte>): seq<byte>
    requires offset + |payload| <= |zone|
  {
    zone[..offset] + payload + zone[offset + |payload|..]
  }

  lemma DecodedFits(encoded: seq<byte>, length: nat)
    requires DecodeChunk(encoded, length).Ok?
    ensures var (offset, payload) := DecodeChunk(encoded, length).value; offset + |payload| <= length
  {
  }

  function Applied(zone: seq<byte>, encoded: seq<byte>): seq<byte> {
    match DecodeChunk(encoded, |zone|)
    case Err(_) => zone
    case Ok(chunk) => DecodedFits(encoded, |zone|); Overwrite(zone, chunk.0, chunk.1)
  }

  lemma CopyNext(before: seq<byte>, zone: seq<byte>, start: nat, payload: seq<byte>, i: nat)
    requires start + |payload| <= |before| && i < |payload|
    requires zone == before[..start] + payload[..i] + before[start + i..]
    ensures zone[start + i := payload[i]] == before[..start] + payload[..i + 1] + before[start + i + 1..]
  {
  }

  /** Copies a chunk into place; a rejected chunk writes nothing. */
  method ApplyChunk(zone: array<byte>, encoded: seq<byte>) returns (r: Result<(nat, nat), Error>)
    modifies zone
    ensures zone[..] == Applied(old(zone[..]), encoded)
    ensures match DecodeChunk(encoded, zone.Length)
      case Err(e) => r == Err(e)
      case Ok(chunk) => r == Ok((chunk.0, |chunk.1|))
  {
    var decoded := DecodeChunk(encoded, zone.Length);
    if decoded.Err? {
      return Err(decoded.error);
    }
    var (start, payload) := decoded.value;
    DecodedFits(encoded, zone.Length);
    ghost var before := zone[..];
    for i := 0 to |payload|
      invariant zone[..] == before[..start] + payload[..i] + before[start + i..]
    {
      CopyNext(before, zone[..], start, payload, i);
      zone[start + i] := payload[i];
    }
    assert payload[..|payload|] == payload;
    return Ok((start, |payload|));
  }

  // ---- Cutting a file --------------------------------------------------------------------------

  /** `encoded` carries a stretch of the file, for the place it came from. */
  ghost predicate Faithful(file: seq<byte>, encoded: seq<byte>) {
    && DecodeChunk(encoded, |file|).Ok?
    && var (offset, payload) := DecodeChunk(encoded, |file|).value;
    && offset + |payload| <= |file| && payload == file[offset..offset + |payload|]
  }

  ghost predicate Carries(file: seq<byte>, encoded: seq<byte>, j: nat) {
    && DecodeChunk(encoded, |file|).Ok?
    && var (offset, payload) := DecodeChunk(encoded, |file|).value;
    && offset <= j < offset + |payload|
  }

  /** Some chunk carries byte `j`. */
  ghost predicate Covered(file: seq<byte>, chunks: seq<seq<byte>>, j: nat) {
    exists i :: 0 <= i < |chunks| && Carries(file, chunks[i], j)
  }

  ghost predicate AllFaithful(file: seq<byte>, chunks: seq<seq<byte>>) {
    forall i :: 0 <= i < |chunks| ==> Faithful(file, chunks[i])
  }

  /** Each chunk starts where the one before it ends, is not empty and within the limit;
      together they run from 0 to `end`. */
  ghost predicate Consecutive(file: seq<byte>, chunks: seq<seq<byte>>, chunkSize: nat, end: nat) {
    if chunks == [] then end == 0
    else
      var decoded := DecodeChunk(chunks[|chunks| - 1], |file|);
      && decoded.Ok? && 0 < |decoded.value.1| <= chunkSize
      && decoded.value.0 + |decoded.value.1| == end
      && Consecutive(file, chunks[..|chunks| - 1], chunkSize, decoded.value.0)
  }

  /** The chunks are consecutive stretches of the file and carry its first `end` bytes. */
  ghost predicate Cut(file: seq<byte>, chunks: seq<seq<byte>>, chunkSize: nat, end: nat) {
    && AllFaithful(file, chunks) && Consecutive(file, chunks, chunkSize, end)
    && forall j :: 0 <= j < end ==> Covered(file, chunks, j)
  }

  lemma CutNext(file: seq<byte>, chunks: seq<seq<byte>>, chunkSize: nat, offset: nat, payload: seq<byte>)
    requires Cut(file, chunks, chunkSize, offset) && 0 < |payload| <= chunkSize && |payload| <= U32_MAX
    requires offset + |payload| <= |file| <= U64_MAX && payload == file[offset..offset + |payload|]
    ensures EncodeChunk(offset, payload).Ok?
    ensures Cut(file, chunks + [EncodeChunk(offset, payload).value], chunkSize, offset + |payload|)
  {
    ChunkRoundTrip(offset, payload, |file|);
    var encoded := EncodeChunk(offset, payload).value;
    assert (chunks + [encoded])[..|chunks|] == chunks;
    CoveredAppend(file, chunks, encoded, offset, payload);
  }

  /** Reads until end of file; `readSizes(n)` is how much the n-th read would like to return,
      of which at least one byte and at most the buffer and the rest of the file happen. */
  method SafetensorsChunks(file: seq<byte>, chunkSize: nat, readSizes: nat -> nat)
    returns (r: Result<seq<seq<byte>>, Error>)
    requires |file| <= U64_MAX
    ensures chunkSize == 0 ==> r == Err(ZeroChunkSize)
    ensures 0 < chunkSize <= U32_MAX ==> r.Ok?
    ensures chunkSize > 0 && r.Err? ==> r.error == ChunkTooLarge
    ensures r.Ok? ==> Cut(file, r.value, chunkSize, |file|)
  {
    if chunkSize == 0 {
      return Err(ZeroChunkSize);
    }
    var chunks: seq<seq<byte>>, offset, n := [], 0, 0;
    while offset < |file|
      invariant offset <= |file| && Cut(file, chunks, chunkSize, offset)
    {
      var most := if chunkSize <= |file| - offset then chunkSize else |file| - offset;
      var read := if readSizes(n) == 0 then 1 else if readSizes(n) <= most then readSizes(n) else most;
      var buffer := file[offset..offset + read];
      var encoded := EncodeChunk(offset, buffer);
      if encoded.Err? {
        return Err(encoded.error);
      }
      CutNext(file, chunks, chunkSize, offset, buffer);
      chunks := chunks + [encoded.value];
      offset, n := offset + read, n + 1;
    }
    return Ok(chunks);
  }

  lemma CoveredAppend(file: seq<byte>, chunks: seq<seq<byte>>, encoded: seq<byte>, offset: nat, payload: seq<byte>)
    requires DecodeChunk(encoded, |file|) == Ok((offset, payload))
    requires forall j :: 0 <= j < offset ==> Covered(file, chunks, j)
    ensures forall j :: 0 <= j < offset + |payload| ==> Covered(file, chunks + [encoded], j)
  {
    var more := chunks + [encoded];
    forall j | 0 <= j < offset + |payload|
      ensures Covered(file, more, j)
    {
      if j < offset {
        assert Covered(file, chunks, j);
        var i :| 0 <= i < |chunks| && Carries(file, chunks[i], j);
        assert Carries(file, more[i], j);
      } else {
        assert Carries(file, more[|chunks|], j);
      }
    }
  }

  // ---- Reassembly --------------------------------------------------------------------------------

  function AppliedAll(zone: seq<byte>, arrivals: seq<seq<byte>>): seq<byte> {
    if arrivals == [] then zone
    else Applied(AppliedAll(zone, arrivals[..|arrivals| - 1]), arrivals[|arrivals| - 1])
  }

  lemma ApplyFaithful(file: seq<byte>, zone: seq<byte>, encoded: seq<byte>, j: nat)
    requires |zone| == |file| && Faithful(file, encoded) && j < |file|
    ensures |Applied(zone, encoded)| == |file|
    ensures Applied(zone, encoded)[j] == if Carries(file, encoded, j) then file[j] else zone[j]
  {
  }

  lemma CoveredSplit(file: seq<byte>, arrivals: seq<seq<byte>>, j: nat)
    requires arrivals != []
    ensures var n := |arrivals| - 1;
      Covered(file, arrivals, j) <==> Covered(file, arrivals[..n], j) || Carries(file, arrivals[n], j)
  {
    var n := |arrivals| - 1;
    var before := arrivals[..n];
    if Covered(file, before, j) {
      var i :| 0 <= i < n && Carries(file, before[i], j);
      assert Carries(file, arrivals[i], j);
    }
    if Covered(file, arrivals, j) {
      var i :| 0 <= i < |arrivals| && Carries(file, arrivals[i], j);
      assert i < n ==> Carries(file, before[i], j);
    }
  }

  lemma {:induction false} AppliedAt(file: seq<byte>, zone: seq<byte>, arrivals: seq<seq<byte>>, j: nat)
    requires |zone| == |file| && AllFaithful(file, arrivals) && j < |file|
    ensures |AppliedAll(zone, arrivals)| == |file|
    ensures AppliedAll(zone, arrivals)[j] == if Covered(file, arrivals, j) then file[j] else zone[j]
  {
    if arrivals != [] {
      var n := |arrivals| - 1;
      AppliedAt(file, zone, arrivals[..n], j);
      ApplyFaithful(file, AppliedAll(zone, arrivals[..n]), arrivals[n], j);
      CoveredSplit(file, arrivals, j);
    }
  }

  /** Applying the chunks in any order, with any repeats, to a zone of the file's length and
      any previous content rebuilds the file, provided every chunk arrives. */
  lemma ReassemblyIsExact(file: seq<byte>, chunks: seq<seq<byte>>, arrivals: seq<seq<byte>>, zone: seq<byte>)
    requires |zone| == |file| && AllFaithful(file, chunks)
    requires forall j :: 0 <= j < |file| ==> Covered(file, chunks, j)
    requires forall k :: 0 <= k < |arrivals| ==> arrivals[k] in chunks
    requires forall i :: 0 <= i < |chunks| ==> chunks[i] in arrivals
    ensures AppliedAll(zone, arrivals) == file
  {
    AppliedLength(zone, arrivals);
    assert AllFaithful(file, arrivals);
    forall j | 0 <= j < |file|
      ensures AppliedAll(zone, arrivals)[j] == file[j]
    {
      assert Covered(file, chunks, j);
      var i :| 0 <= i < |chunks| && Carries(file, chunks[i], j);
      var k :| 0 <= k < |arrivals| && arrivals[k] == chunks[i];
      assert Carries(file, arrivals[k], j);
      AppliedAt(file, zone, arrivals, j);
    }
  }

  lemma {:induction false} AppliedLength(zone: seq<byte>, arrivals: seq<seq<byte>>)
    ensures |AppliedAll(zone, arrivals)| == |zone|
  {
    if arrivals != [] {
      AppliedLength(zone, arrivals[..|arrivals| - 1]);
    }
  }
}
