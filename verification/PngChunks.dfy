/** The chunks of a PNG file (crates/otter-gfx/src/png.rs): lengths, types and checksums. */
module PngChunks {
  import opened Bytes
  import opened Options
  import opened Checksums
  import opened Endian
  import opened PngFilters
  import Zlib

  const SIGNATURE: ByteString := [137, 80, 78, 71, 13, 10, 26, 10]
  const IHDR: ByteString := [0x49, 0x48, 0x44, 0x52]
  const PLTE: ByteString := [0x50, 0x4C, 0x54, 0x45]
  const TRNS: ByteString := [0x74, 0x52, 0x4E, 0x53]
  const IDAT: ByteString := [0x49, 0x44, 0x41, 0x54]
  const IEND: ByteString := [0x49, 0x45, 0x4E, 0x44]

  datatype Ihdr = Ihdr(width: nat, height: nat, bitDepth: Byte, colorType: Byte, interlace: Byte)

  /** What the chunks read so far have contributed. */
  datatype Parts = Parts(
    ihdr: Option<Ihdr>, idat: ByteString, plte: Option<ByteString>, trns: Option<ByteString>, end: bool)

  datatype Chunk = Chunk(ctype: ByteString, data: ByteString)

  predicate ValidChunk(c: Chunk) { |c.ctype| == 4 && |c.data| < 0x1_0000_0000 }

  function ParseIhdr(d: ByteString): PngResult<Ihdr> {
    if |d| < 13 then Failed(Truncated)
    else if d[10] != 0 || d[11] != 0 then Failed(InvalidIhdr)
    else Decoded(Ihdr(BeValue(d[..4]), BeValue(d[4..8]), d[8], d[9], d[12]))
  }

  /** The effect of one chunk; unknown types are skipped. */
  function Take(p: Parts, c: Chunk): PngResult<Parts> {
    if c.ctype == IHDR then
      match ParseIhdr(c.data)
      case Failed(e) => Failed(e)
      case Decoded(h) => Decoded(p.(ihdr := Some(h)))
    else if c.ctype == PLTE then Decoded(p.(plte := Some(c.data)))
    else if c.ctype == TRNS then Decoded(p.(trns := Some(c.data)))
    else if c.ctype == IDAT then Decoded(p.(idat := p.idat + c.data))
    else if c.ctype == IEND then Decoded(p.(end := true))
    else Decoded(p)
  }

  /** Length (its low 32 bits), type, data, and the checksum of type and data. */
  function ChunkBytes(c: Chunk): (b: ByteString)
    requires |c.ctype| == 4
    ensures |b| == 12 + |c.data|
  {
    BeBytes(|c.data|, 4) + c.ctype + c.data + BeBytes(Crc(c.ctype + c.data), 4)
  }

  /** The chunk at a position, its checksum compared. */
  function ChunkAt(data: ByteString, pos: nat): (r: PngResult<Chunk>)
    requires pos + 8 <= |data|
    ensures r.Decoded? ==> pos + 12 + |r.image.data| <= |data|
  {
    var len := BeValue(data[pos..pos + 4]);
    var c := data[pos + 4..pos + 8];
    var start := pos + 8;
    if start + len + 4 > |data| then Failed(Truncated)
    else if Crc(c + data[start..start + len]) != BeValue(data[start + len..start + len + 4]) then Failed(CrcMismatch)
    else Decoded(Chunk(c, data[start..start + len]))
  }

  /** Chunks from a position on, until IEND or until no chunk header fits. */
  function ReadFrom(data: ByteString, pos: nat, p: Parts): PngResult<Parts>
    requires pos <= |data|
    decreases |data| - pos
  {
    if pos + 8 > |data| || p.end then Decoded(p) else
    match ChunkAt(data, pos)
    case Failed(e) => Failed(e)
    case Decoded(c) =>
      match Take(p, c)
      case Failed(e) => Failed(e)
      case Decoded(p') => ReadFrom(data, pos + 12 + |c.data|, p')
  }

  function ChunksBytes(chunks: seq<Chunk>): ByteString
    requires forall c :: c in chunks ==> ValidChunk(c)
  {
    if chunks == [] then [] else
    assert ValidChunk(chunks[0]);
    ChunkBytes(chunks[0]) + ChunksBytes(chunks[1..])
  }

  /** All the chunks of a list taken in order, the last of them the first IEND. */
  function Gather(p: Parts, chunks: seq<Chunk>): PngResult<Parts>
    decreases |chunks|
  {
    if p.end then (if chunks == [] then Decoded(p) else Failed(Truncated))
    else if chunks == [] then Failed(Truncated)
    else
      match Take(p, chunks[0])
      case Failed(e) => Failed(e)
      case Decoded(p') => Gather(p', chunks[1..])
  }

  lemma WordFits(x: nat)
    requires x < 0x1_0000_0000
    ensures BeValue(BeBytes(x, 4)) == x
  {
    Zlib.WordFits(4);
    BeRoundTrip(x, 4);
  }

  lemma Part(data: ByteString, pos: nat, n: nat, i: nat, j: nat)
    requires i <= j <= n && pos + n <= |data|
    ensures data[pos..pos + n][i..j] == data[pos + i..pos + j]
  {
    var b, l, r := data[pos..pos + n], data[pos..pos + n][i..j], data[pos + i..pos + j];
    assert |l| == |r|;
    forall k | 0 <= k < |l| ensures l[k] == r[k] {
      assert l[k] == b[i + k];
    }
  }

  /** One encoded chunk in front is read as that chunk. */
  lemma ChunkReads(c: Chunk, data: ByteString, pos: nat)
    requires ValidChunk(c) && pos + 12 + |c.data| <= |data|
    requires data[pos..pos + 12 + |c.data|] == ChunkBytes(c)
    ensures ChunkAt(data, pos) == Decoded(c)
  {
    hide Crc, BeBytes, BeValue;
    var b, n := data[pos..pos + 12 + |c.data|], |c.data|;
    Part(data, pos, 12 + n, 0, 4);
    Part(data, pos, 12 + n, 4, 8);
    Part(data, pos, 12 + n, 8, 8 + n);
    Part(data, pos, 12 + n, 8 + n, 12 + n);
    assert b[0..4] == BeBytes(n, 4) && b[4..8] == c.ctype;
    assert b[8..8 + n] == c.data && b[8 + n..12 + n] == BeBytes(Crc(c.ctype + c.data), 4);
    WordFits(n);
    WordFits(Crc(c.ctype + c.data));
  }

  /** A chunk read is the one whose encoding stands there. */
  lemma ChunkFound(data: ByteString, pos: nat)
    requires pos + 8 <= |data| && ChunkAt(data, pos).Decoded?
    ensures var c := ChunkAt(data, pos).image; ValidChunk(c) && data[pos..pos + 12 + |c.data|] == ChunkBytes(c)
  {
    hide Crc, BeBytes, BeValue;
    var len := BeValue(data[pos..pos + 4]);
    var next := pos + 12 + len;
    HeaderBytes(data[pos..pos + 4]);
    HeaderBytes(data[next - 4..next]);
    assert data[pos..next] == data[pos..pos + 4] + data[pos + 4..pos + 8] + data[pos + 8..pos + 8 + len]
                              + data[next - 4..next];
  }

  predicate AllValid(chunks: seq<Chunk>) { forall c :: c in chunks ==> ValidChunk(c) }

  /** Encoded chunks up to the first IEND are read back, whatever follows them. */
  lemma {:induction false} ChunksRead(chunks: seq<Chunk>, data: ByteString, pos: nat, p: Parts)
    requires AllValid(chunks) && pos + |ChunksBytes(chunks)| <= |data|
    requires data[pos..pos + |ChunksBytes(chunks)|] == ChunksBytes(chunks)
    requires Gather(p, chunks).Decoded?
    ensures ReadFrom(data, pos, p) == Gather(p, chunks)
    decreases |chunks|
  {
    hide Take, ChunkBytes, ChunkAt;
    if !p.end {
      var c, rest := chunks[0], ChunksBytes(chunks[1..]);
      var n := 12 + |c.data|;
      assert ValidChunk(c);
      assert data[pos..pos + n] == ChunksBytes(chunks)[..n] == ChunkBytes(c);
      assert data[pos + n..pos + n + |rest|] == ChunksBytes(chunks)[n..] == rest;
      ChunkReads(c, data, pos);
      ChunksRead(chunks[1..], data, pos + n, Take(p, c).image);
    }
  }

  /** Data read to its IEND is nothing but encoded chunks, every checksum right. */
  lemma {:induction false} ReadsChunks(data: ByteString, pos: nat, p: Parts) returns (chunks: seq<Chunk>)
    requires pos <= |data| && ReadFrom(data, pos, p).Decoded? && ReadFrom(data, pos, p).image.end
    ensures AllValid(chunks) && pos + |ChunksBytes(chunks)| <= |data|
    ensures data[pos..pos + |ChunksBytes(chunks)|] == ChunksBytes(chunks)
    ensures Gather(p, chunks) == ReadFrom(data, pos, p)
    decreases |data| - pos
  {
    hide Take, ChunkAt, ChunkBytes;
    if p.end {
      chunks := [];
    } else {
      var c := ChunkAt(data, pos).image;
      ChunkFound(data, pos);
      var next := pos + 12 + |c.data|;
      var rest := ReadsChunks(data, next, Take(p, c).image);
      chunks := [c] + rest;
      assert chunks[1..] == rest;
      assert data[pos..next] + data[next..next + |ChunksBytes(rest)|] == data[pos..next + |ChunksBytes(rest)|];
    }
  }

  lemma HeaderBytes(b: ByteString)
    requires |b| == 4
    ensures BeBytes(BeValue(b), 4) == b && BeValue(b) < 0x1_0000_0000
  {
    Zlib.WordFits(4);
    BeUnique(b);
    BeBound(b);
  }

  method ReadChunk(data: ByteString, pos: nat) returns (r: PngResult<Chunk>)
    requires pos + 8 <= |data|
    ensures r == ChunkAt(data, pos)
  {
    hide Crc, BeValue, Checksums.CrcRegister;
    var len := BeValue(data[pos..pos + 4]);
    var ctype := data[pos + 4..pos + 8];
    var dataStart := pos + 8;
    if dataStart + len + 4 > |data| {
      return Failed(Truncated);
    }
    var chunkData := data[dataStart..dataStart + len];
    var stored := BeValue(data[dataStart + len..dataStart + len + 4]);
    var crc := new Crc32();
    crc.Update(ctype);
    crc.Update(chunkData);
    var sum := crc.Finish();
    assert [] + ctype + chunkData == ctype + chunkData;
    if sum != stored {
      return Failed(CrcMismatch);
    }
    return Decoded(Chunk(ctype, chunkData));
  }

  /** Reads the chunks of a file after its signature. */
  method ReadChunks(data: ByteString, start: nat) returns (r: PngResult<Parts>)
    requires start <= |data|
    ensures r == ReadFrom(data, start, Parts(None, [], None, None, false))
  {
    hide Take, ChunkAt;
    var pos, p := start, Parts(None, [], None, None, false);
    while pos + 8 <= |data| && !p.end
      invariant pos <= |data|
      invariant ReadFrom(data, start, Parts(None, [], None, None, false)) == ReadFrom(data, pos, p)
      decreases |data| - pos
    {
      var c := ReadChunk(data, pos);
      if c.Failed? {
        return Failed(c.reason);
      }
      var taken := Take(p, c.image);
      if taken.Failed? {
        return taken;
      }
      p := taken.image;
      pos := pos + 12 + |c.image.data|;
    }
    return Decoded(p);
  }

  /** One chunk at the end of the output. */
  method WriteChunk(out: ByteString, c: Chunk) returns (r: ByteString)
    requires |c.ctype| == 4
    ensures r == out + ChunkBytes(c)
  {
    hide Crc, BeBytes;
    var crc := new Crc32();
    crc.Update(c.ctype);
    crc.Update(c.data);
    var sum := crc.Finish();
    assert [] + c.ctype + c.data == c.ctype + c.data;
    r := out + BeBytes(|c.data|, 4) + c.ctype + c.data + BeBytes(sum, 4);
  }
}
