/**
 * The chunks of a PNG file: what the reader takes from them, and that it reads back any list of chunks.
 */
module PngChunks {
  import opened Bytes

  type Kind = k: seq<Byte> | |k| == 4 witness [0, 0, 0, 0]

  const SIGNATURE: seq<Byte> := [0x89, 80, 78, 71, 13, 10, 26, 10]
  const IHDR: Kind := [73, 72, 68, 82]
  const PLTE: Kind := [80, 76, 84, 69]
  const TRNS: Kind := [116, 82, 78, 83]
  const IDAT: Kind := [73, 68, 65, 84]
  const IEND: Kind := [73, 69, 78, 68]

  /** The kinds are their names in ASCII, and the signature holds that of the format. */
  lemma KindNames()
    ensures IsText(IHDR, "IHDR") && IsText(PLTE, "PLTE") && IsText(TRNS, "tRNS") && IsText(IDAT, "IDAT")
    ensures IsText(IEND, "IEND") && |SIGNATURE| == 8 && IsText(SIGNATURE[1..6], "PNG\r\n") && SIGNATURE[0] == 0x89
    ensures SIGNATURE[6..] == [26, '\n' as int]
  {
  }

  predicate IsText(b: seq<Byte>, s: string) {
    |b| == |s| && forall i :: 0 <= i < |b| ==> b[i] == s[i] as int
  }

  datatype Header = Header(width: U32, height: U32, depth: Byte, color: Byte, interlace: Byte)

  /** What the chunks read so far have given. */
  datatype Parts = Parts(ihdr: Option<Header>, plte: Option<seq<Byte>>, trns: Option<seq<Byte>>, idat: seq<Byte>)

  datatype ChunkError = Truncated | HeaderLength | CompressionMethod | FilterMethod | InterlaceMethod

  // ---------- Numbers ----------

  /** Four bytes, the highest first. */
  function Word32(b: seq<Byte>): U32
    requires |b| == 4
  {
    var b0: nat, b1: nat, b2: nat, b3: nat := b[0], b[1], b[2], b[3];
    0x100_0000 * b0 + 0x1_0000 * b1 + 0x100 * b2 + b3
  }

  function Bytes32(n: U32): (r: seq<Byte>)
    ensures |r| == 4 && Word32(r) == n
  {
    var hi, lo := n / 0x1_0000, n % 0x1_0000;
    [hi / 0x100, hi % 0x100, lo / 0x100, lo % 0x100]
  }

  // ---------- Reading ----------

  function ReadHeader(data: seq<Byte>): Result<Header, ChunkError> {
    if |data| != 13 then Err(HeaderLength)
    else if data[10] != 0 then Err(CompressionMethod)
    else if data[11] != 0 then Err(FilterMethod)
    else if data[12] > 1 then Err(InterlaceMethod)
    else Ok(Header(Word32(data[..4]), Word32(data[4..8]), data[8], data[9], data[12]))
  }

  ghost function HeaderBytes(header: Header): (r: seq<Byte>)
    ensures |r| == 13
  {
    Bytes32(header.width) + Bytes32(header.height) + [header.depth, header.color, 0, 0, header.interlace]
  }

  lemma WordOnce(b: seq<Byte>)
    requires |b| == 4
    ensures Bytes32(Word32(b)) == b
  {
    var b0: nat, b1: nat, b2: nat, b3: nat := b[0], b[1], b[2], b[3];
    var hi, lo := 0x100 * b0 + b1, 0x100 * b2 + b3;
    assert Word32(b) == 0x1_0000 * hi + lo && 0 <= lo < 0x1_0000;
    assert hi / 0x100 == b0 && hi % 0x100 == b1 && lo / 0x100 == b2 && lo % 0x100 == b3;
  }

  /** A header is read from its thirteen bytes and from no others. */
  lemma HeaderBack(data: seq<Byte>, header: Header)
    ensures ReadHeader(data) == Ok(header) <==> header.interlace <= 1 && data == HeaderBytes(header)
  {
    hide Word32, Bytes32;
    if |data| == 13 {
      WordOnce(data[..4]);
      WordOnce(data[4..8]);
      assert data == data[..4] + data[4..8] + [data[8], data[9], data[10], data[11], data[12]];
      assert HeaderBytes(header)[..4] == Bytes32(header.width) && HeaderBytes(header)[4..8] == Bytes32(header.height);
    }
  }

  /** What one chunk adds; chunks of other kinds add nothing. */
  function Absorb(parts: Parts, kind: Kind, data: seq<Byte>): Result<Parts, ChunkError> {
    if kind == IHDR then
      match ReadHeader(data)
      case Err(e) => Err(e)
      case Ok(header) => Ok(parts.(ihdr := Some(header)))
    else if kind == PLTE then Ok(parts.(plte := Some(data)))
    else if kind == TRNS then Ok(parts.(trns := Some(data)))
    else if kind == IDAT then Ok(parts.(idat := parts.idat + data))
    else Ok(parts)
  }

  /** The chunks up to the end chunk, or up to a rest too short for another one. */
  function ReadChunks(file: seq<Byte>, parts: Parts): Result<Parts, ChunkError>
    decreases |file|
  {
    if |file| < 8 then Ok(parts) else
    var len, kind: Kind := Word32(file[..4]), file[4..8];
    if 12 + len > |file| then Err(Truncated)
    else if kind == IEND then Ok(parts) else
    match Absorb(parts, kind, file[8..8 + len])
    case Err(e) => Err(e)
    case Ok(next) => ReadChunks(file[12 + len..], next)
  }

  /** Reads chunks in a loop over positions in the file. */
  method Collect(file: seq<Byte>, start: nat) returns (r: Result<Parts, ChunkError>)
    requires start <= |file|
    ensures r == ReadChunks(file[start..], Parts(None, None, None, []))
  {
    hide ReadChunks, Absorb, Word32, IEND;
    var pos := start;
    var parts := Parts(None, None, None, []);
    while pos + 8 <= |file|
      invariant start <= pos <= |file|
      invariant ReadChunks(file[pos..], parts) == ReadChunks(file[start..], Parts(None, None, None, []))
      decreases |file| - pos
    {
      var len := Word32(file[pos..pos + 4]);
      var kind: Kind := file[pos + 4..pos + 8];
      var dataStart := pos + 8;
      ChunkTurn(file, pos, parts);
      if dataStart + len + 4 > |file| {
        return Err(Truncated);
      }
      if kind == IEND {
        break;
      }
      var next := Absorb(parts, kind, file[dataStart..dataStart + len]);
      if next.Err? {
        return Err(next.error);
      }
      parts := next.value;
      pos := dataStart + len + 4;
    }
    if pos + 8 > |file| {
      ChunksEnd(file[pos..], parts);
    }
    r := Ok(parts);
  }

  lemma ChunksEnd(rest: seq<Byte>, parts: Parts)
    requires |rest| < 8
    ensures ReadChunks(rest, parts) == Ok(parts)
  {
  }

  /** One turn of the specification. */
  lemma ChunkTurn(file: seq<Byte>, pos: nat, parts: Parts)
    requires pos + 8 <= |file|
    ensures var len, kind: Kind := Word32(file[pos..pos + 4]), file[pos + 4..pos + 8];
            ReadChunks(file[pos..], parts)
            == if pos + len + 12 > |file| then Err(Truncated)
               else if kind == IEND then Ok(parts)
               else match Absorb(parts, kind, file[pos + 8..pos + 8 + len])
                    case Err(e) => Err(e)
                    case Ok(next) => ReadChunks(file[pos + 12 + len..], next)
  {
    hide Absorb, Word32, IEND;
    var rest := file[pos..];
    assert rest[..4] == file[pos..pos + 4] && rest[4..8] == file[pos + 4..pos + 8];
    var len := Word32(rest[..4]);
    if 12 + len <= |rest| {
      assert rest[8..8 + len] == file[pos + 8..pos + 8 + len];
      assert rest[12 + len..] == file[pos + 12 + len..];
    }
  }

  // ---------- Writing ----------

  datatype Chunk = Chunk(kind: Kind, data: seq<Byte>, crc: seq<Byte>)

  /** The checksum is not looked at. */
  ghost predicate ChunkOk(c: Chunk) {
    |c.data| <= U32_MAX && |c.crc| == 4
  }

  ghost predicate ChunksOk(chunks: seq<Chunk>) {
    forall i :: 0 <= i < |chunks| ==> ChunkOk(chunks[i]) && chunks[i].kind != IEND
  }

  function ChunkBytes(c: Chunk): seq<Byte>
    requires ChunkOk(c)
  {
    Bytes32(|c.data|) + c.kind + c.data + c.crc
  }

  function AllBytes(chunks: seq<Chunk>): seq<Byte>
    requires ChunksOk(chunks)
  {
    if chunks == [] then [] else ChunkBytes(chunks[0]) + AllBytes(chunks[1..])
  }

  function AbsorbAll(parts: Parts, chunks: seq<Chunk>): Result<Parts, ChunkError>
    decreases chunks
  {
    if chunks == [] then Ok(parts) else
    match Absorb(parts, chunks[0].kind, chunks[0].data)
    case Err(e) => Err(e)
    case Ok(next) => AbsorbAll(next, chunks[1..])
  }

  lemma ChunkRead(c: Chunk, rest: seq<Byte>, parts: Parts)
    requires ChunkOk(c)
    ensures ReadChunks(ChunkBytes(c) + rest, parts)
            == if c.kind == IEND then Ok(parts) else
               var next := Absorb(parts, c.kind, c.data);
               if next.Ok? then ReadChunks(rest, next.value) else next
  {
    hide Absorb, Word32, Bytes32, IEND;
    var file, n := ChunkBytes(c) + rest, |c.data|;
    assert file[..4] == Bytes32(n) && file[4..8] == c.kind && file[8..8 + n] == c.data && file[12 + n..] == rest;
  }

  /** Any chunks before the end chunk are read back in order. */
  lemma {:induction false} ChunksRead(chunks: seq<Chunk>, rest: seq<Byte>, parts: Parts)
    requires ChunksOk(chunks)
    ensures var all := AbsorbAll(parts, chunks);
            ReadChunks(AllBytes(chunks) + rest, parts) == if all.Ok? then ReadChunks(rest, all.value) else all
    decreases chunks
  {
    hide Absorb, ChunkBytes, ReadChunks, IEND;
    if chunks == [] {
      assert [] + rest == rest;
    } else {
      var first, later := ChunkBytes(chunks[0]), AllBytes(chunks[1..]);
      assert (first + later) + rest == first + (later + rest);
      ChunkRead(chunks[0], later + rest, parts);
      var next := Absorb(parts, chunks[0].kind, chunks[0].data);
      if next.Ok? {
        ChunksRead(chunks[1..], rest, next.value);
      }
    }
  }

  // ---------- What the chunks give ----------

  /** The image data: the IDAT chunks joined in order. */
  function ImageData(chunks: seq<Chunk>): seq<Byte> {
    if chunks == [] then [] else
    var last := chunks[|chunks| - 1];
    ImageData(chunks[..|chunks| - 1]) + if last.kind == IDAT then last.data else []
  }

  /** The data of the last chunk of a kind. */
  function Last(chunks: seq<Chunk>, kind: Kind): Option<seq<Byte>> {
    if chunks == [] then None else
    var last := chunks[|chunks| - 1];
    if last.kind == kind then Some(last.data) else Last(chunks[..|chunks| - 1], kind)
  }

  ghost predicate HeadersOk(chunks: seq<Chunk>) {
    forall i :: 0 <= i < |chunks| && chunks[i].kind == IHDR ==> ReadHeader(chunks[i].data).Ok?
  }

  lemma {:induction false} AbsorbLast(parts: Parts, chunks: seq<Chunk>, c: Chunk)
    ensures var all := AbsorbAll(parts, chunks);
            AbsorbAll(parts, chunks + [c]) == if all.Ok? then Absorb(all.value, c.kind, c.data) else all
    decreases chunks
  {
    hide Absorb;
    if chunks == [] {
      assert chunks + [c] == [c];
    } else {
      var next := Absorb(parts, chunks[0].kind, chunks[0].data);
      assert (chunks + [c])[1..] == chunks[1..] + [c];
      if next.Ok? {
        AbsorbLast(next.value, chunks[1..], c);
      }
    }
  }

  /** Whatever the order of the chunks and however the image data is cut up: the IDAT chunks are joined,
      of every other kind the last chunk counts, and the only failures are those of a header. */
  lemma {:induction false} Absorbed(chunks: seq<Chunk>)
    ensures var r := AbsorbAll(Parts(None, None, None, []), chunks);
            && (r.Ok? <==> HeadersOk(chunks))
            && (r.Ok? ==> r.value.idat == ImageData(chunks) && r.value.plte == Last(chunks, PLTE)
                          && r.value.trns == Last(chunks, TRNS))
            && (r.Ok? ==> match Last(chunks, IHDR)
                          case None => r.value.ihdr == None
                          case Some(data) => ReadHeader(data).Ok? && r.value.ihdr == Some(ReadHeader(data).value))
  {
    hide ReadHeader;
    if chunks != [] {
      var front, c := chunks[..|chunks| - 1], chunks[|chunks| - 1];
      assert front + [c] == chunks;
      Absorbed(front);
      AbsorbLast(Parts(None, None, None, []), front, c);
      assert HeadersOk(chunks) <==> HeadersOk(front) && (c.kind == IHDR ==> ReadHeader(c.data).Ok?);
    }
  }
}
