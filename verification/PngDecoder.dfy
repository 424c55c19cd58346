/**
 * From a PNG file to its pixels: the chunks, the header's checks, the zlib header, inflation and one of the
 * two pixel layouts, with the end-to-end round trip.
 */
module PngDecoder {
  import opened Bytes
  import opened PngBits
  import opened PngHuffman
  import opened PngInflate
  import opened PngInflater
  import opened PngDeflateStream
  import opened PngFilter
  import opened PngUnfilter
  import opened PngRaster
  import opened PngPixels
  import opened PngColors
  import opened PngInterlace
  import opened PngDeinterlacer
  import opened PngChunks

  datatype ImageError =
    | ZlibTooShort
    | ZlibMethod
    | ZlibHeaderCheck
    | ZlibTruncated
    | Inflating(error: InflateError)
    | Filtering(failure: PngError)

  // ---------- The image data on values ----------

  /** The length of the zlib header: two bytes, and four more for a preset dictionary's identifier. */
  function ZlibStart(flg: Byte): nat {
    if flg / 32 % 2 == 1 then 6 else 2
  }

  function ZlibBody(data: seq<Byte>): (r: Result<seq<Byte>, ImageError>)
    ensures r.Ok? ==> |r.value| <= |data| - 2
  {
    if |data| < 2 then Err(ZlibTooShort) else
    var cmf: nat, flg: nat := data[0], data[1];
    if cmf % 16 != 8 then Err(ZlibMethod)
    else if (256 * cmf + flg) % 31 != 0 then Err(ZlibHeaderCheck)
    else if |data| < ZlibStart(data[1]) then Err(ZlibTruncated)
    else Ok(data[ZlibStart(data[1])..])
  }

  /** The low four bits of the first byte are 8, the two bytes are a multiple of 31, and the compressed data
      starts after them, or four bytes later when bit 5 of the second announces a preset dictionary. */
  lemma ZlibBodyIs(data: seq<Byte>, body: seq<Byte>)
    ensures ZlibBody(data) == Ok(body) <==>
              && |data| >= 2 && ToBits(data[0], 8)[..4] == [0, 0, 0, 1]
              && (exists q: nat :: data[0] as int * 256 + data[1] as int == 31 * q)
              && (if ToBits(data[1], 8)[5] == 0 then body == data[2..] else |data| >= 6 && body == data[6..])
  {
    if |data| >= 2 {
      var cmf: nat, flg: nat := data[0], data[1];
      LowNibble(cmf);
      FifthBit(flg);
      Multiples(cmf * 256 + flg);
      hide ToBits;
    }
  }

  lemma Multiples(n: nat)
    ensures n % 31 == 0 <==> exists q: nat :: n == 31 * q
  {
    assert n % 31 == 0 ==> n == 31 * (n / 31);
  }

  lemma LowNibble(v: nat)
    ensures ToBits(v, 8)[..4] == [0, 0, 0, 1] <==> v % 16 == 8
  {
    var a, b, c := v / 2, v / 2 / 2, v / 2 / 2 / 2;
    assert ToBits(v, 8) == [v % 2, a % 2] + ToBits(b, 6) && ToBits(b, 6) == [b % 2, c % 2] + ToBits(c / 2, 4);
    assert ToBits(v, 8)[..4] == [v % 2, a % 2, b % 2, c % 2];
    assert v % 16 == v % 2 + 2 * (a % 2) + 4 * (b % 2) + 8 * (c % 2);
  }

  lemma FifthBit(v: nat)
    ensures ToBits(v, 8)[5] == v / 32 % 2
  {
    var a, b := v / 2 / 2, v / 2 / 2 / 2 / 2;
    assert ToBits(v, 8)[5] == ToBits(a, 6)[3] == ToBits(b, 4)[1] == b / 2 % 2;
    assert b / 2 == v / 32;
  }

  function ZlibInflated(data: seq<Byte>, expected: nat): Result<seq<Byte>, ImageError> {
    match ZlibBody(data)
    case Err(e) => Err(e)
    case Ok(body) =>
      match Inflated(body, expected)
      case Err(e) => Err(Inflating(e))
      case Ok(raw) => Ok(raw)
  }

  /** How many raw bytes the header of the image announces. */
  function RawSize(fmt: Format, w: nat, h: nat, interlace: nat): nat {
    if interlace == 0 then Rows(h, RowBytes(fmt, w) + 1) else Estimate(fmt, w, h, 0)
  }

  /** The image of unfiltered rows, or the error of a pixel without a colour. */
  ghost function Rgba(fmt: Format, d: seq<Byte>, w: nat, h: nat): Result<seq<Byte>, PngError>
    requires FormatOk(fmt)
  {
    if AllColored(fmt, d, w, h) then Ok(Render(Colored(fmt, d, w), w, h)) else Err(PixelError(fmt))
  }

  ghost function Pixels(fmt: Format, raw: seq<Byte>, w: nat, h: nat, interlace: nat): Result<seq<Byte>, PngError>
    requires FormatOk(fmt)
  {
    if interlace != 0 then Deinterlaced(fmt, raw, w, h) else
    match Unfiltered(raw, h, RowBytes(fmt, w), BytesPerPixel(fmt))
    case Err(e) => Err(e)
    case Ok(d) => Rgba(fmt, d, w, h)
  }

  ghost function Decoded(fmt: Format, idat: seq<Byte>, w: nat, h: nat, interlace: nat): Result<seq<Byte>, ImageError>
    requires FormatOk(fmt)
  {
    match ZlibInflated(idat, RawSize(fmt, w, h, interlace))
    case Err(e) => Err(e)
    case Ok(raw) =>
      match Pixels(fmt, raw, w, h, interlace)
      case Err(e) => Err(Filtering(e))
      case Ok(image) => Ok(image)
  }

  // ---------- The round trip of the image data ----------

  /** A filter type for every row: of the image, or of each of its passes. */
  ghost predicate AllFiltersOk(filters: seq<seq<nat>>, h: nat, interlace: nat) {
    if interlace != 0 then FiltersOk(filters, h)
    else |filters| == 1 && |filters[0]| == h && forall i :: 0 <= i < h ==> filters[0][i] <= 4
  }

  ghost function RawImage(filters: seq<seq<nat>>, fmt: Format, s: Source, w: nat, h: nat, interlace: nat)
    : (r: seq<Byte>)
    requires AllFiltersOk(filters, h, interlace) && FormatOk(fmt) && SourceOk(s, fmt.depth)
    ensures |r| == RawSize(fmt, w, h, interlace)
  {
    if interlace != 0 then FilterPasses(filters, fmt, s, w, h, 0)
    else FilterRows(filters[0], PackRows(fmt, s, w, h), [], RowBytes(fmt, w), BytesPerPixel(fmt))
  }

  lemma PackedPicture(fmt: Format, s: Source, w: nat, h: nat)
    requires FormatOk(fmt) && SourceOk(s, fmt.depth)
    ensures Rgba(fmt, PackRows(fmt, s, w, h), w, h) == Picture(fmt, s, w, h)
  {
    hide FormatOk, SourceOk, ColorAt, SourceColor, PackRows, Render;
    var d := PackRows(fmt, s, w, h);
    forall x: nat, y: nat | x < w && y < h
      ensures ColorAt(fmt, d, w, x, y) == SourceColor(fmt, s, x, y)
    {
      PackedColor(fmt, s, w, h, x, y);
    }
    SameRender(Colored(fmt, d, w), SourceRaster(fmt, s), w, h);
  }

  lemma PixelsBack(filters: seq<seq<nat>>, fmt: Format, s: Source, w: nat, h: nat, interlace: nat)
    requires AllFiltersOk(filters, h, interlace) && FormatOk(fmt) && SourceOk(s, fmt.depth)
    ensures Pixels(fmt, RawImage(filters, fmt, s, w, h, interlace), w, h, interlace) == Picture(fmt, s, w, h)
  {
    hide Unfiltered, Deinterlaced, FilterRows, FilterPasses, FiltersOk, Rows, FormatOk, SourceOk, RowBytes,
      BytesPerPixel, Picture, Rgba, PackRows;
    var raw := RawImage(filters, fmt, s, w, h, interlace);
    assert raw + [] == raw;
    if interlace == 0 {
      ImageRoundTrip(filters[0], PackRows(fmt, s, w, h), RowBytes(fmt, w), BytesPerPixel(fmt), []);
      PackedPicture(fmt, s, w, h);
    } else {
      InterlaceRoundTrip(filters, fmt, s, w, h, []);
    }
  }

  ghost function PictureResult(fmt: Format, s: Source, w: nat, h: nat): Result<seq<Byte>, ImageError> {
    match Picture(fmt, s, w, h)
    case Err(e) => Err(Filtering(e))
    case Ok(image) => Ok(image)
  }

  /** The compressed form of an image: any blocks behind any valid zlib header, any filters, interlaced or not. */
  ghost predicate Compressed(idat: seq<Byte>, pieces: seq<Piece>, filters: seq<seq<nat>>, fmt: Format, s: Source,
      w: nat, h: nat, interlace: nat)
  {
    && AllFiltersOk(filters, h, interlace) && FormatOk(fmt) && SourceOk(s, fmt.depth)
    && StreamOk(pieces, []) && DenoteAll(pieces, []) == RawImage(filters, fmt, s, w, h, interlace)
    && ZlibBody(idat).Ok? && PiecesBits(pieces, [], 0) <= StreamBits(ZlibBody(idat).value)
  }

  /** Image data of every colour type and bit depth, interlaced or not, with any filters, compressed into any
      stored, fixed and dynamic blocks behind any valid zlib header, decodes to the colours of its samples;
      it fails exactly when a pixel has no colour. */
  lemma ImageDecodes(filters: seq<seq<nat>>, fmt: Format, s: Source, w: nat, h: nat, interlace: nat,
      pieces: seq<Piece>, idat: seq<Byte>)
    requires Compressed(idat, pieces, filters, fmt, s, w, h, interlace)
    ensures Decoded(fmt, idat, w, h, interlace) == PictureResult(fmt, s, w, h)
  {
    hide AllFiltersOk, RawImage, RawSize, Pixels, StreamOk, DenoteAll, PiecesBits, ZlibBody, Inflated, StreamBits,
      Picture, FormatOk, SourceOk;
    TrueSizeInflates(pieces, ZlibBody(idat).value);
    PixelsBack(filters, fmt, s, w, h, interlace);
  }

  function ChannelByte(image: seq<Byte>, w: nat, x: nat, y: nat, c: nat): nat {
    if c < 4 then PixelAt(image, w, x, y)[c] else 0
  }

  /** The samples of an image that is RGBA already. */
  function ImageSource(image: seq<Byte>, w: nat): Source {
    (x: nat, y: nat, c: nat) => ChannelByte(image, w, x, y, c)
  }

  /** An 8-bit RGBA image shows itself. */
  lemma RgbaPicture(fmt: Format, image: seq<Byte>, w: nat, h: nat)
    requires fmt.color == 6 && fmt.depth == 8 && |image| == Size(w, h)
    ensures SourceOk(ImageSource(image, w), 8) && Picture(fmt, ImageSource(image, w), w, h) == Ok(image)
  {
    SmallPowers();
    hide Pow2, Size, PixelAt, Render;
    var s := ImageSource(image, w);
    forall x: nat, y: nat
      ensures SourceColor(fmt, s, x, y) == Ok(PixelAt(image, w, x, y))
    {
      RgbaColor(fmt, image, w, x, y);
    }
    ShowsIsRender(image, SourceRaster(fmt, s), w, h);
  }

  lemma RgbaColor(fmt: Format, image: seq<Byte>, w: nat, x: nat, y: nat)
    requires fmt.color == 6 && fmt.depth == 8
    ensures SourceColor(fmt, ImageSource(image, w), x, y) == Ok(PixelAt(image, w, x, y))
  {
    hide PixelAt;
    var p := PixelAt(image, w, x, y);
    assert p == [p[0], p[1], p[2], p[3]];
  }

  // ---------- The decoder of the image data ----------

  method ZlibInflate(data: seq<Byte>, expected: nat) returns (r: Result<seq<Byte>, ImageError>)
    ensures r == ZlibInflated(data, expected)
  {
    hide Inflated;
    if |data| < 2 {
      return Err(ZlibTooShort);
    }
    var cmf: nat, flg: nat := data[0], data[1];
    if cmf % 16 != 8 {
      return Err(ZlibMethod);
    }
    if (256 * cmf + flg) % 31 != 0 {
      return Err(ZlibHeaderCheck);
    }
    var start := 2;
    if flg / 32 % 2 == 1 {
      start := start + 4;
    }
    if |data| < start {
      return Err(ZlibTruncated);
    }
    var inflated := Inflate(data[start..], expected);
    if inflated.Err? {
      return Err(Inflating(inflated.error));
    }
    r := Ok(inflated.value);
  }

  /** The pixels before row `y`, or before `x` in it, are shown. */
  ghost predicate ShownUpTo(now: seq<Byte>, f: Raster, w: nat, h: nat, x: nat, y: nat) {
    && |now| == Size(w, h)
    && forall x': nat, y': nat :: x' < w && y' < h && (y' < y || (y' == y && x' < x)) ==>
         PixelAt(now, w, x', y') == f(x', y')
  }

  lemma AllShownUp(now: seq<Byte>, f: Raster, w: nat, h: nat)
    requires ShownUpTo(now, f, w, h, 0, h)
    ensures now == Render(f, w, h)
  {
    hide Size, PixelAt, Render;
    ShowsIsRender(now, f, w, h);
  }

  method ShowPixel(out: array<Byte>, w: nat, h: nat, x: nat, y: nat, rgba: Pixel, ghost f: Raster)
    requires x < w && y < h && rgba == f(x, y) && ShownUpTo(out[..], f, w, h, x, y)
    modifies out
    ensures ShownUpTo(out[..], f, w, h, x + 1, y)
  {
    hide Size, PixelAt;
    assert |out[..]| == out.Length;
    WritePixel(out, w, h, x, y, rgba);
  }

  method ShowRow(fmt: Format, out: array<Byte>, row: seq<Byte>, ghost d: seq<Byte>, w: nat, h: nat, y: nat)
    returns (r: Result<(), PngError>)
    requires FormatOk(fmt) && y < h && |d| == Rows(h, RowBytes(fmt, w))
    requires Rows(y + 1, RowBytes(fmt, w)) <= |d| && row == DataRow(fmt, d, w, y)
    requires ShownUpTo(out[..], Colored(fmt, d, w), w, h, 0, y)
    modifies out
    ensures r.Ok? ==> RowColored(fmt, d, w, y, w) && ShownUpTo(out[..], Colored(fmt, d, w), w, h, 0, y + 1)
    ensures r.Err? ==> r.error == PixelError(fmt) && !AllColored(fmt, d, w, h)
  {
    hide ColorAt, ShownUpTo, Rows, RowBytes, Colored, AllColored, FormatOk;
    for x := 0 to w
      invariant ShownUpTo(out[..], Colored(fmt, d, w), w, h, x, y) && RowColored(fmt, d, w, y, x)
    {
      var rgba := PixelOf(fmt, d, w, h, row, x, y);
      if rgba.Err? {
        return Err(rgba.error);
      }
      ShowPixel(out, w, h, x, y, rgba.value, Colored(fmt, d, w));
    }
    RowShownUp(out[..], Colored(fmt, d, w), w, h, y);
    r := Ok(());
  }

  lemma RowShownUp(now: seq<Byte>, f: Raster, w: nat, h: nat, y: nat)
    requires ShownUpTo(now, f, w, h, w, y)
    ensures ShownUpTo(now, f, w, h, 0, y + 1)
  {
    hide Size, PixelAt;
  }

  /** Turns the pixels of unfiltered rows into RGBA one by one. */
  method ToRgba8(fmt: Format, d: seq<Byte>, w: nat, h: nat) returns (r: Result<seq<Byte>, PngError>)
    requires FormatOk(fmt) && |d| == Rows(h, RowBytes(fmt, w))
    ensures r == Rgba(fmt, d, w, h)
  {
    hide Size, Rows, RowBytes, ShownUpTo, Colored, AllColored, FormatOk, Render, RowsColored;
    var out := new Byte[Size(w, h)](_ => 0);
    NothingShown(fmt, out[..], d, w, h);
    for y := 0 to h
      invariant ShownUpTo(out[..], Colored(fmt, d, w), w, h, 0, y) && RowsColored(fmt, d, w, y)
    {
      RowInside(fmt, d, w, h, y);
      var row := ShowRow(fmt, out, DataRow(fmt, d, w, y), d, w, h, y);
      if row.Err? {
        return Err(row.error);
      }
      OneMoreRow(fmt, d, w, y);
    }
    EveryRowColored(fmt, d, w, h);
    AllShownUp(out[..], Colored(fmt, d, w), w, h);
    r := Ok(out[..]);
  }

  lemma NothingShown(fmt: Format, now: seq<Byte>, d: seq<Byte>, w: nat, h: nat)
    requires FormatOk(fmt) && |now| == Size(w, h)
    ensures ShownUpTo(now, Colored(fmt, d, w), w, h, 0, 0) && RowsColored(fmt, d, w, 0)
  {
  }

  lemma OneMoreRow(fmt: Format, d: seq<Byte>, w: nat, y: nat)
    requires FormatOk(fmt) && RowsColored(fmt, d, w, y) && RowColored(fmt, d, w, y, w)
    ensures RowsColored(fmt, d, w, y + 1)
  {
  }

  /** The pixels of the image data, or the first error, on every input. */
  method Decode(fmt: Format, idat: seq<Byte>, w: nat, h: nat, interlace: nat) returns (r: Result<seq<Byte>, ImageError>)
    requires FormatOk(fmt)
    ensures r == Decoded(fmt, idat, w, h, interlace)
  {
    hide ZlibInflated, Unfiltered, Deinterlaced, Rows, RowBytes, BytesPerPixel, Estimate, Rgba, FormatOk;
    var expected := EstimateRawSize(fmt, w, h, interlace);
    var raw := ZlibInflate(idat, expected);
    if raw.Err? {
      return Err(raw.error);
    }
    var image: Result<seq<Byte>, PngError>;
    if interlace == 0 {
      var unfiltered := Unfilter(raw.value, h, RowBytes(fmt, w), BytesPerPixel(fmt));
      if unfiltered.Err? {
        return Err(Filtering(unfiltered.error));
      }
      image := ToRgba8(fmt, unfiltered.value, w, h);
    } else {
      image := DecodeAdam7(fmt, raw.value, w, h);
    }
    r := if image.Ok? then Ok(image.value) else Err(Filtering(image.error));
  }

  // ---------- The file ----------

  datatype FileError =
    | BadSignature
    | BadChunk(chunk: ChunkError)
    | MissingHeader
    | ZeroDimension
    | TooManyPixels
    | ColorType
    | BitDepth
    | PaletteDepth
    | ColorDepth
    | BadImage(image: ImageError)

  const MAX_PIXELS: nat := 0x400_0000

  datatype Image = Image(width: nat, height: nat, rgba: seq<Byte>)

  /** The checks of the header, in the decoder's order. */
  function CheckHeader(parts: Parts): (r: Result<Header, FileError>)
    ensures r.Ok? ==> FormatOk(FormatOf(r.value, parts))
  {
    if parts.ihdr.None? then Err(MissingHeader) else
    var header := parts.ihdr.value;
    if header.width == 0 || header.height == 0 then Err(ZeroDimension)
    else if header.width * header.height > MAX_PIXELS then Err(TooManyPixels)
    else if header.color != 0 && header.color != 2 && header.color != 3 && header.color != 4 && header.color != 6
    then Err(ColorType)
    else if !DepthOk(header.depth) then Err(BitDepth)
    else if header.color == 3 && header.depth == 16 then Err(PaletteDepth)
    else if header.color != 0 && header.color != 3 && header.depth != 8 && header.depth != 16 then Err(ColorDepth)
    else Ok(header)
  }

  /** Exactly which headers are accepted. */
  lemma HeaderAccepted(parts: Parts, header: Header)
    ensures CheckHeader(parts) == Ok(header) <==>
              && parts.ihdr == Some(header) && header.width > 0 && header.height > 0
              && header.width * header.height <= 64 * 1024 * 1024 && FormatOk(FormatOf(header, parts))
  {
  }

  function FormatOf(header: Header, parts: Parts): Format {
    Format(header.color, header.depth, parts.plte, parts.trns)
  }

  ghost function DecodedParts(parts: Parts): Result<Image, FileError> {
    match CheckHeader(parts)
    case Err(e) => Err(e)
    case Ok(header) =>
      match Decoded(FormatOf(header, parts), parts.idat, header.width, header.height, header.interlace)
      case Err(e) => Err(BadImage(e))
      case Ok(rgba) => Ok(Image(header.width, header.height, rgba))
  }

  ghost function DecodedFile(file: seq<Byte>): Result<Image, FileError> {
    if |file| < 8 || file[..8] != SIGNATURE then Err(BadSignature) else
    match ReadChunks(file[8..], Parts(None, None, None, []))
    case Err(e) => Err(BadChunk(e))
    case Ok(parts) => DecodedParts(parts)
  }

  /** The whole decoder: the image of any byte string, or the first error. */
  method DecodeRgba8(file: seq<Byte>) returns (r: Result<Image, FileError>)
    ensures r == DecodedFile(file)
  {
    hide ReadChunks, Decoded, CheckHeader;
    if |file| < 8 || file[..8] != SIGNATURE {
      return Err(BadSignature);
    }
    var parts := Collect(file, 8);
    if parts.Err? {
      return Err(BadChunk(parts.error));
    }
    var header := CheckHeader(parts.value);
    if header.Err? {
      return Err(header.error);
    }
    var rgba := Decode(FormatOf(header.value, parts.value), parts.value.idat, header.value.width, header.value.height,
                       header.value.interlace);
    r := if rgba.Ok? then Ok(Image(header.value.width, header.value.height, rgba.value)) else Err(BadImage(rgba.error));
  }

  ghost function FileBytes(chunks: seq<Chunk>, end: Chunk): seq<Byte>
    requires ChunksOk(chunks) && ChunkOk(end)
  {
    SIGNATURE + AllBytes(chunks) + ChunkBytes(end)
  }

  lemma FileRead(chunks: seq<Chunk>, end: Chunk, tail: seq<Byte>)
    requires ChunksOk(chunks) && ChunkOk(end) && end.kind == IEND
    ensures DecodedFile(FileBytes(chunks, end) + tail)
            == var parts := AbsorbAll(Parts(None, None, None, []), chunks);
               if parts.Ok? then DecodedParts(parts.value) else Err(BadChunk(parts.error))
  {
    hide ReadChunks, DecodedParts, AbsorbAll, AllBytes, ChunkBytes, IEND;
    var file, rest := FileBytes(chunks, end) + tail, ChunkBytes(end) + tail;
    assert file[..8] == SIGNATURE;
    assert file[8..] == AllBytes(chunks) + rest;
    ChunksRead(chunks, rest, Parts(None, None, None, []));
    var parts := AbsorbAll(Parts(None, None, None, []), chunks);
    if parts.Ok? {
      ChunkRead(end, tail, parts.value);
    }
  }

  /** A file of any chunks whose last header, palette and transparency chunks and joined image data describe
      an image decodes to the image's colours, however the data is cut into chunks, whatever other chunks
      lie between them and whatever follows the end chunk. */
  lemma FileDecodes(chunks: seq<Chunk>, end: Chunk, tail: seq<Byte>, header: Header, filters: seq<seq<nat>>,
      s: Source, pieces: seq<Piece>)
    requires ChunksOk(chunks) && ChunkOk(end) && end.kind == IEND && HeadersOk(chunks)
    requires Last(chunks, IHDR).Some? && ReadHeader(Last(chunks, IHDR).value) == Ok(header)
    requires header.width > 0 && header.height > 0 && header.width * header.height <= MAX_PIXELS
    requires var fmt := Format(header.color, header.depth, Last(chunks, PLTE), Last(chunks, TRNS));
             Compressed(ImageData(chunks), pieces, filters, fmt, s, header.width, header.height, header.interlace)
    ensures DecodedFile(FileBytes(chunks, end) + tail)
            == var fmt := Format(header.color, header.depth, Last(chunks, PLTE), Last(chunks, TRNS));
               match Picture(fmt, s, header.width, header.height)
               case Err(e) => Err(BadImage(Filtering(e)))
               case Ok(rgba) => Ok(Image(header.width, header.height, rgba))
  {
    hide DecodedFile, Decoded, Compressed, Picture, AbsorbAll, ImageData, Last, HeadersOk, ReadHeader, FileBytes,
      IHDR, PLTE, TRNS, IEND, ChunksOk;
    FileRead(chunks, end, tail);
    Absorbed(chunks);
    var fmt := Format(header.color, header.depth, Last(chunks, PLTE), Last(chunks, TRNS));
    CompressedFormat(ImageData(chunks), pieces, filters, fmt, s, header.width, header.height, header.interlace);
    ImageDecodes(filters, fmt, s, header.width, header.height, header.interlace, pieces, ImageData(chunks));
  }

  lemma CompressedFormat(idat: seq<Byte>, pieces: seq<Piece>, filters: seq<seq<nat>>, fmt: Format, s: Source,
      w: nat, h: nat, interlace: nat)
    requires Compressed(idat, pieces, filters, fmt, s, w, h, interlace)
    ensures FormatOk(fmt)
  {
  }
}
