/** The PNG container: the strict walker of the visual suite, the header
    reader of the comparison audit, and the chunk layout they share
    (section 3.2 of RFC 2083). The checksum and zlib are parameters. */
module PngContainer {
  import opened Bytes
  import opened Wrappers

  const SIGNATURE: seq<byte> := [0x89, 0x50, 0x4E, 0x47, 0x0D, 0x0A, 0x1A, 0x0A]
  const IHDR: seq<byte> := [0x49, 0x48, 0x44, 0x52]
  const IDAT: seq<byte> := [0x49, 0x44, 0x41, 0x54]
  const IEND: seq<byte> := [0x49, 0x45, 0x4E, 0x44]

  /** eXIf, iTXt, tEXt, tIME and zTXt. */
  const FORBIDDEN: set<seq<byte>> :=
    { [0x65, 0x58, 0x49, 0x66], [0x69, 0x54, 0x58, 0x74], [0x74, 0x45, 0x58, 0x74],
      [0x74, 0x49, 0x4D, 0x45], [0x7A, 0x54, 0x58, 0x74] }

  const WORD: nat := 0x1_0000_0000
  const SIZE_LIMIT: nat := 64 * 1024 * 1024

  datatype Codec = Codec(
    crc: seq<byte> -> nat,
    deflate: seq<byte> -> seq<byte>,
    inflate: seq<byte> -> Option<seq<byte>>
  ) {
    function Checksum(s: seq<byte>): (c: nat)
      ensures c < WORD
    {
      crc(s) % WORD
    }

    /** All that is assumed of zlib. */
    ghost predicate Lossless() {
      forall s :: inflate(deflate(s)) == Some(s)
    }
  }

  datatype Chunk = Chunk(kind: seq<byte>, data: seq<byte>) {
    predicate Valid() { |kind| == 4 && |data| < WORD }
  }

  function Render(codec: Codec, c: Chunk): (s: seq<byte>)
    requires c.Valid()
    ensures |s| == 12 + |c.data|
  {
    BigEndian(|c.data|, 4) + c.kind + c.data + BigEndian(codec.Checksum(c.kind + c.data), 4)
  }

  function RenderAll(codec: Codec, chunks: seq<Chunk>): seq<byte>
    requires forall c :: c in chunks ==> c.Valid()
  {
    if chunks == [] then [] else Render(codec, chunks[0]) + RenderAll(codec, chunks[1..])
  }

  // -------------------------------------------------------------- the strict walker

  datatype PngError =
    | NotPng | TruncatedChunk | BadLength | ChecksumDiffers | PrivateMetadata | HeaderNotFirst | BadHeader
    | NotCanonical | BadTerminator | Incomplete | TooLarge | BadStream | BadScanlines

  function Word(raw: seq<byte>, offset: nat): nat
    requires offset + 4 <= |raw|
  {
    FromBigEndian(raw[offset..offset + 4])
  }

  /** The chunk at `offset`; it occupies `12 + |data|` bytes. */
  function ReadChunk(codec: Codec, raw: seq<byte>, offset: nat): Result<Chunk, PngError> {
    if offset + 12 > |raw| then Err(TruncatedChunk) else
    var length := Word(raw, offset);
    if offset + 12 + length > |raw| then Err(BadLength) else
    var kind, data := raw[offset + 4..offset + 8], raw[offset + 8..offset + 8 + length];
    if codec.Checksum(kind + data) != Word(raw, offset + 8 + length) then Err(ChecksumDiffers) else
    Ok(Chunk(kind, data))
  }

  /** What the walk remembers. */
  datatype Walk = Walk(header: Option<Header>, idat: seq<seq<byte>>, ended: bool, first: bool)

  datatype Header = Header(width: nat, height: nat, color: byte) {
    function RowBytes(): nat { width * (if color == 2 then 3 else 4) }
    function StreamSize(): nat { height * (RowBytes() + 1) }
  }

  function ReadHeader(data: seq<byte>): Result<Header, PngError>
    requires |data| == 13
  {
    var width, height := Word(data, 0), Word(data, 4);
    if width == 0 || height == 0 || data[8] != 8 || (data[9] != 2 && data[9] != 6)
       || data[10] != 0 || data[11] != 0 || data[12] != 0
    then Err(NotCanonical)
    else Ok(Header(width, height, data[9]))
  }

  /** One chunk; `last` says that it ends the file. */
  function Step(st: Walk, c: Chunk, last: bool): Result<Walk, PngError> {
    if c.kind in FORBIDDEN then Err(PrivateMetadata)
    else if st.first && c.kind != IHDR then Err(HeaderNotFirst)
    else if c.kind == IHDR then
      if st.header.Some? || |c.data| != 13 then Err(BadHeader) else
      match ReadHeader(c.data)
      case Err(e) => Err(e)
      case Ok(h) => Ok(st.(header := Some(h), first := false))
    else if c.kind == IDAT then Ok(st.(idat := st.idat + [c.data], first := false))
    else if c.kind == IEND then
      if c.data != [] || !last then Err(BadTerminator) else Ok(st.(ended := true, first := false))
    else Ok(st.(first := false))
  }

  function WalkFrom(codec: Codec, raw: seq<byte>, offset: nat, st: Walk): Result<Walk, PngError>
    decreases |raw| - offset
  {
    if offset >= |raw| then Ok(st) else
    match ReadChunk(codec, raw, offset)
    case Err(e) => Err(e)
    case Ok(c) =>
      var end := offset + 12 + |c.data|;
      match Step(st, c, end == |raw|)
      case Err(e) => Err(e)
      case Ok(next) => WalkFrom(codec, raw, end, next)
  }

  const START := Walk(None, [], false, true)

  /** Every scanline starts with one of the five filter types. */
  predicate FiltersKnown(pixels: seq<byte>, height: nat, rowBytes: nat)
    requires |pixels| == height * (rowBytes + 1)
  {
    forall row :: 0 <= row < height ==> ScanlineFilter(pixels, height, rowBytes, row) <= 4
  }

  function ScanlineFilter(pixels: seq<byte>, height: nat, rowBytes: nat, row: nat): byte
    requires |pixels| == height * (rowBytes + 1) && row < height
  {
    InStream(height, rowBytes + 1, row);
    pixels[row * (rowBytes + 1)]
  }

  lemma InStream(height: nat, line: nat, row: nat)
    requires row < height && line > 0
    ensures 0 <= row * line < height * line
  {
    assert row * line + line == (row + 1) * line <= height * line;
  }

  function Conclude(codec: Codec, st: Walk): Result<(nat, nat), PngError> {
    if st.header.None? || st.idat == [] || !st.ended then Err(Incomplete) else
    var h := st.header.value;
    if h.StreamSize() > SIZE_LIMIT then Err(TooLarge) else
    match codec.inflate(Concat(st.idat))
    case None => Err(BadStream)
    case Some(pixels) =>
      if |pixels| != h.StreamSize() || !FiltersKnown(pixels, h.height, h.RowBytes()) then Err(BadScanlines)
      else Ok((h.width, h.height))
  }

  function StrictDimensions(codec: Codec, raw: seq<byte>): Result<(nat, nat), PngError> {
    if !(SIGNATURE <= raw) then Err(NotPng) else
    match WalkFrom(codec, raw, 8, START)
    case Err(e) => Err(e)
    case Ok(st) => Conclude(codec, st)
  }

  /** `png_dimensions` of the visual suite. */
  method PngDimensions(codec: Codec, raw: seq<byte>) returns (r: Result<(nat, nat), PngError>)
    ensures r == StrictDimensions(codec, raw)
  {
    hide WalkFrom, FromBigEndian, ReadHeader, Conclude;
    if !(SIGNATURE <= raw) {
      return Err(NotPng);
    }
    var offset := 8;
    var header: Option<Header> := None;
    var compressed: seq<seq<byte>> := [];
    var sawEnd, index := false, 0;
    while offset < |raw|
      invariant 8 <= offset
      invariant WalkFrom(codec, raw, 8, START)
             == WalkFrom(codec, raw, offset, Walk(header, compressed, sawEnd, index == 0))
      decreases |raw| - offset
    {
      WalkOneChunk(codec, raw, offset, Walk(header, compressed, sawEnd, index == 0));
      if offset + 12 > |raw| {
        return Err(TruncatedChunk);
      }
      var length := FromBigEndian(raw[offset..offset + 4]);
      var end := offset + 12 + length;
      if end > |raw| {
        return Err(BadLength);
      }
      var kind, data := raw[offset + 4..offset + 8], raw[offset + 8..offset + 8 + length];
      if codec.Checksum(kind + data) != FromBigEndian(raw[offset + 8 + length..offset + 8 + length + 4]) {
        return Err(ChecksumDiffers);
      }
      assert ReadChunk(codec, raw, offset) == Ok(Chunk(kind, data));
      if kind in FORBIDDEN {
        return Err(PrivateMetadata);
      }
      if index == 0 && kind != IHDR {
        return Err(HeaderNotFirst);
      }
      if kind == IHDR {
        if header.Some? || length != 13 {
          return Err(BadHeader);
        }
        match ReadHeader(data) {
          case Err(e) => return Err(e);
          case Ok(h) => header := Some(h);
        }
      } else if kind == IDAT {
        compressed := compressed + [data];
      } else if kind == IEND {
        if length != 0 || end != |raw| {
          return Err(BadTerminator);
        }
        sawEnd := true;
      }
      offset, index := end, index + 1;
    }
    WalkEnds(codec, raw, offset, Walk(header, compressed, sawEnd, index == 0));
    r := Conclude(codec, Walk(header, compressed, sawEnd, index == 0));
  }

  lemma WalkOneChunk(codec: Codec, raw: seq<byte>, offset: nat, st: Walk)
    requires offset < |raw|
    ensures match ReadChunk(codec, raw, offset)
            case Err(e) => WalkFrom(codec, raw, offset, st) == Err(e)
            case Ok(c) =>
              var end := offset + 12 + |c.data|;
              match Step(st, c, end == |raw|)
              case Err(e) => WalkFrom(codec, raw, offset, st) == Err(e)
              case Ok(next) => WalkFrom(codec, raw, offset, st) == WalkFrom(codec, raw, end, next)
  {
    hide ReadChunk, Step;
  }

  lemma WalkEnds(codec: Codec, raw: seq<byte>, offset: nat, st: Walk)
    requires offset >= |raw|
    ensures WalkFrom(codec, raw, offset, st) == Ok(st)
  {
  }

  // ------------------------------------------- what exactly the strict walker accepts

  function IdatOf(chunks: seq<Chunk>): seq<seq<byte>> {
    if chunks == [] then []
    else (if chunks[0].kind == IDAT then [chunks[0].data] else []) + IdatOf(chunks[1..])
  }

  /** A canonical file of the given size, written without reference to the walk:
      a header first and nowhere else, image data, an empty terminator last and
      nowhere else, no private metadata, complete scanlines. */
  ghost predicate Canonical(codec: Codec, chunks: seq<Chunk>, width: nat, height: nat) {
    && InOrder(chunks)
    && IdatOf(chunks) != []
    && width > 0 && height > 0
    && exists color :: color in {2, 6} && CanonicalHeader(chunks[0].data, width, height, color)
         && CompletePixels(codec, Concat(IdatOf(chunks)), width, height, color)
  }

  ghost predicate InOrder(chunks: seq<Chunk>) {
    && |chunks| >= 2
    && (forall i :: 0 <= i < |chunks| ==> chunks[i].Valid() && chunks[i].kind !in FORBIDDEN)
    && (forall i :: 0 <= i < |chunks| ==> (chunks[i].kind == IHDR <==> i == 0))
    && (forall i :: 0 <= i < |chunks| ==> (chunks[i].kind == IEND <==> i == |chunks| - 1))
    && chunks[|chunks| - 1].data == []
  }

  ghost predicate CanonicalHeader(data: seq<byte>, width: nat, height: nat, color: byte) {
    data == BigEndian(width, 4) + BigEndian(height, 4) + [8, color, 0, 0, 0] && width < WORD && height < WORD
  }

  /** The stream inflates to `height` scanlines, each a known filter type and
      the bytes of `width` RGB or RGBA pixels, and 64 MiB at most. */
  ghost predicate CompletePixels(codec: Codec, stream: seq<byte>, width: nat, height: nat, color: byte) {
    && codec.inflate(stream).Some?
    && var pixels := codec.inflate(stream).value; var line := width * (if color == 2 then 3 else 4) + 1;
       && |pixels| == height * line && height * line <= 67_108_864
       && KnownFilters(pixels, line, height)
  }

  predicate KnownFilters(pixels: seq<byte>, line: nat, height: nat) {
    forall row :: 0 <= row < height ==> KnownFilter(pixels, line, row)
  }

  predicate KnownFilter(pixels: seq<byte>, line: nat, row: nat) {
    row * line < |pixels| && pixels[row * line] <= 4
  }

  /** What the walker checks of the stream, once it has a header. */
  predicate Passes(codec: Codec, stream: seq<byte>, h: Header) {
    && h.StreamSize() <= SIZE_LIMIT
    && codec.inflate(stream).Some?
    && var pixels := codec.inflate(stream).value;
       |pixels| == h.StreamSize() && FiltersKnown(pixels, h.height, h.RowBytes())
  }

  lemma PassesMeans(codec: Codec, stream: seq<byte>, h: Header)
    ensures Passes(codec, stream, h) <==> CompletePixels(codec, stream, h.width, h.height, h.color)
  {
    var line := h.RowBytes() + 1;
    assert line == h.width * (if h.color == 2 then 3 else 4) + 1 && h.StreamSize() == h.height * line;
    if codec.inflate(stream).Some? && |codec.inflate(stream).value| == h.height * line {
      var pixels := codec.inflate(stream).value;
      SameFilters(pixels, h.height, h.RowBytes(), line);
    }
  }

  lemma SameFilters(pixels: seq<byte>, height: nat, rowBytes: nat, line: nat)
    requires |pixels| == height * line && line == rowBytes + 1
    ensures FiltersKnown(pixels, height, rowBytes) <==> KnownFilters(pixels, line, height)
  {
    hide KnownFilter, ScanlineFilter;
    forall row | 0 <= row < height
      ensures ScanlineFilter(pixels, height, rowBytes, row) <= 4 <==> KnownFilter(pixels, line, row)
    {
      SameFilter(pixels, height, rowBytes, row);
    }
  }

  lemma SameFilter(pixels: seq<byte>, height: nat, rowBytes: nat, row: nat)
    requires |pixels| == height * (rowBytes + 1) && row < height
    ensures ScanlineFilter(pixels, height, rowBytes, row) <= 4 <==> KnownFilter(pixels, rowBytes + 1, row)
  {
    InStream(height, rowBytes + 1, row);
  }

  /** The chunk names and the signature, as they are written in the standard. */
  lemma NamesOfStandard()
    ensures SIGNATURE == [137] + Ascii("PNG") + [13, 10, 26, 10]
    ensures IHDR == Ascii("IHDR") && IDAT == Ascii("IDAT") && IEND == Ascii("IEND")
    ensures FORBIDDEN == { Ascii("eXIf"), Ascii("iTXt"), Ascii("tEXt"), Ascii("tIME"), Ascii("zTXt") }
  {
    FourLetters("IHDR");
    FourLetters("IDAT");
    FourLetters("IEND");
    FourLetters("eXIf");
    FourLetters("iTXt");
    FourLetters("tEXt");
    FourLetters("tIME");
    FourLetters("zTXt");
  }

  lemma FourLetters(s: string)
    requires |s| == 4 && IsAscii(s)
    ensures Ascii(s) == [s[0] as int, s[1] as int, s[2] as int, s[3] as int]
  {
  }

  /** What a chunk that is read is, byte by byte: four of length, four of name,
      the data, and four of checksum over name and data. */
  lemma ChunkBytes(codec: Codec, raw: seq<byte>, offset: nat)
    requires ReadChunk(codec, raw, offset).Ok?
    ensures var c := ReadChunk(codec, raw, offset).value; var n := |c.data|;
            && offset + 12 + n <= |raw| && |c.kind| == 4
            && FromBigEndian(raw[offset..offset + 4]) == n
            && c.kind == raw[offset + 4..offset + 8] && c.data == raw[offset + 8..offset + 8 + n]
            && FromBigEndian(raw[offset + 8 + n..offset + 12 + n])
               == codec.crc(raw[offset + 4..offset + 8 + n]) % 0x1_0000_0000
  {
    var c := ReadChunk(codec, raw, offset).value;
    assert raw[offset + 4..offset + 8 + |c.data|] == c.kind + c.data;
  }

  /** A chunk is read exactly where it was rendered. */
  lemma ReadRendered(codec: Codec, raw: seq<byte>, offset: nat, c: Chunk)
    requires c.Valid() && offset + 12 + |c.data| <= |raw|
    requires raw[offset..offset + 12 + |c.data|] == Render(codec, c)
    ensures ReadChunk(codec, raw, offset) == Ok(c)
  {
    hide Render;
    var r, n := Render(codec, c), |c.data|;
    RenderedParts(codec, c);
    SliceOfSlice(raw, offset, offset + 12 + n, 0, 4);
    SliceOfSlice(raw, offset, offset + 12 + n, 4, 8);
    SliceOfSlice(raw, offset, offset + 12 + n, 8, 8 + n);
    SliceOfSlice(raw, offset, offset + 12 + n, 8 + n, 12 + n);
  }

  lemma RenderedParts(codec: Codec, c: Chunk)
    requires c.Valid()
    ensures var r, n := Render(codec, c), |c.data|;
            && FromBigEndian(r[0..4]) == n && r[4..8] == c.kind && r[8..8 + n] == c.data
            && FromBigEndian(r[8 + n..12 + n]) == codec.Checksum(c.kind + c.data)
  {
    Bounds();
    var r, n, sum := Render(codec, c), |c.data|, codec.Checksum(c.kind + c.data);
    BigEndianRoundTrip(n, 4);
    BigEndianRoundTrip(sum, 4);
    assert r[0..4] == BigEndian(n, 4) && r[8 + n..12 + n] == BigEndian(sum, 4);
  }

  lemma SliceOfSlice<T>(s: seq<T>, a: nat, b: nat, i: nat, j: nat)
    requires i <= j && a + j <= b <= |s|
    ensures s[a..b][i..j] == s[a + i..a + j]
  {
    assert |s[a..b][i..j]| == |s[a + i..a + j]|;
    assert forall k :: 0 <= k < j - i ==> s[a..b][i..j][k] == s[a + i..a + j][k];
  }

  lemma RenderedRead(codec: Codec, raw: seq<byte>, offset: nat)
    requires ReadChunk(codec, raw, offset).Ok?
    ensures var c := ReadChunk(codec, raw, offset).value;
            && c.Valid() && offset + 12 + |c.data| <= |raw|
            && raw[offset..offset + 12 + |c.data|] == Render(codec, c)
  {
    Bounds();
    var c := ReadChunk(codec, raw, offset).value;
    var n := |c.data|;
    BigEndianOf(raw[offset..offset + 4]);
    BigEndianOf(raw[offset + 8 + n..offset + 8 + n + 4]);
    assert raw[offset..offset + 12 + n]
        == raw[offset..offset + 4] + raw[offset + 4..offset + 8] + raw[offset + 8..offset + 8 + n]
           + raw[offset + 8 + n..offset + 8 + n + 4];
  }

  /** The walk over chunks instead of bytes. */
  function Fold(st: Walk, chunks: seq<Chunk>): Result<Walk, PngError>
    decreases |chunks|
  {
    if chunks == [] then Ok(st) else
    match Step(st, chunks[0], |chunks| == 1)
    case Err(e) => Err(e)
    case Ok(next) => Fold(next, chunks[1..])
  }

  lemma {:induction false} WalkRendered(codec: Codec, raw: seq<byte>, offset: nat, st: Walk, chunks: seq<Chunk>)
    requires forall c :: c in chunks ==> c.Valid()
    requires offset <= |raw| && raw[offset..] == RenderAll(codec, chunks)
    ensures WalkFrom(codec, raw, offset, st) == Fold(st, chunks)
    decreases |chunks|
  {
    hide Step, ReadChunk;
    if chunks != [] {
      var c, rest := chunks[0], RenderAll(codec, chunks[1..]);
      var end := offset + 12 + |c.data|;
      assert raw[offset..] == Render(codec, c) + rest;
      assert raw[offset..end] == raw[offset..][..12 + |c.data|] == Render(codec, c);
      assert raw[end..] == raw[offset..][12 + |c.data|..] == rest;
      ReadRendered(codec, raw, offset, c);
      assert chunks[1..] != [] ==> |RenderAll(codec, chunks[1..])| >= 12;
      match Step(st, c, |chunks| == 1) {
        case Err(_) =>
        case Ok(next) => WalkRendered(codec, raw, end, next, chunks[1..]);
      }
    }
  }

  lemma {:induction false} WalkedChunks(codec: Codec, raw: seq<byte>, offset: nat, st: Walk)
    returns (chunks: seq<Chunk>)
    requires offset <= |raw| && WalkFrom(codec, raw, offset, st).Ok?
    ensures forall c :: c in chunks ==> c.Valid()
    ensures raw[offset..] == RenderAll(codec, chunks)
    decreases |raw| - offset
  {
    hide Step, ReadChunk;
    if offset == |raw| {
      chunks := [];
    } else {
      var c := ReadChunk(codec, raw, offset).value;
      RenderedRead(codec, raw, offset);
      var end := offset + 12 + |c.data|;
      var rest := WalkedChunks(codec, raw, end, Step(st, c, end == |raw|).value);
      chunks := [c] + rest;
      assert chunks[1..] == rest;
      assert raw[offset..] == raw[offset..end] + raw[end..];
    }
  }

  /** The chunks after the header: what they must be, and what they leave. */
  ghost predicate TailOk(chunks: seq<Chunk>) {
    && (forall i :: 0 <= i < |chunks| ==> chunks[i].kind !in FORBIDDEN && chunks[i].kind != IHDR)
    && (forall i :: 0 <= i < |chunks| && chunks[i].kind == IEND ==> i == |chunks| - 1 && chunks[i].data == [])
  }

  lemma {:induction false} FoldTail(st: Walk, chunks: seq<Chunk>)
    requires st.header.Some? && !st.first
    ensures Fold(st, chunks).Ok? <==> TailOk(chunks)
    ensures Fold(st, chunks).Ok? ==> Fold(st, chunks).value == AfterTail(st, chunks)
    decreases |chunks|
  {
    if chunks == [] {
      assert st.idat + [] == st.idat;
    } else {
      hide Step, TailOk, AfterTail;
      var step := Step(st, chunks[0], |chunks| == 1);
      TailStep(st, chunks);
      if step.Ok? {
        FoldTail(step.value, chunks[1..]);
        AfterTailStep(st, chunks);
      }
    }
  }

  function AfterTail(st: Walk, chunks: seq<Chunk>): Walk {
    st.(idat := st.idat + IdatOf(chunks), ended := st.ended || (chunks != [] && chunks[|chunks| - 1].kind == IEND))
  }

  lemma AfterTailStep(st: Walk, chunks: seq<Chunk>)
    requires st.header.Some? && !st.first && chunks != []
    requires Step(st, chunks[0], |chunks| == 1).Ok?
    ensures AfterTail(Step(st, chunks[0], |chunks| == 1).value, chunks[1..]) == AfterTail(st, chunks)
  {
    TailStep(st, chunks);
    hide Step;
    var next := Step(st, chunks[0], |chunks| == 1).value;
    assert next.idat + IdatOf(chunks[1..]) == st.idat + IdatOf(chunks);
  }

  lemma TailStep(st: Walk, chunks: seq<Chunk>)
    requires st.header.Some? && !st.first && chunks != []
    ensures var step := Step(st, chunks[0], |chunks| == 1);
            && (TailOk(chunks) <==> step.Ok? && TailOk(chunks[1..]))
            && (step.Ok? ==>
                  step.value == st.(idat := if chunks[0].kind == IDAT then st.idat + [chunks[0].data] else st.idat,
                                    ended := st.ended || chunks[0].kind == IEND))
            && (step.Ok? && chunks[0].kind == IEND ==> |chunks| == 1)
  {
    var rest := chunks[1..];
    assert forall i :: 0 <= i < |rest| ==> rest[i] == chunks[i + 1];
    if Step(st, chunks[0], |chunks| == 1).Ok? && TailOk(rest) {
      forall i | 0 <= i < |chunks|
        ensures chunks[i].kind !in FORBIDDEN && chunks[i].kind != IHDR
        ensures chunks[i].kind == IEND ==> i == |chunks| - 1 && chunks[i].data == []
      {
        assert i > 0 ==> chunks[i] == rest[i - 1];
      }
    }
  }

  lemma HeaderRead(data: seq<byte>, width: nat, height: nat, color: byte)
    ensures |data| == 13 && ReadHeader(data) == Ok(Header(width, height, color))
            <==> width > 0 && height > 0 && color in {2, 6} && CanonicalHeader(data, width, height, color)
  {
    Bounds();
    if |data| == 13 && ReadHeader(data) == Ok(Header(width, height, color)) {
      BigEndianOf(data[0..4]);
      BigEndianOf(data[4..8]);
      assert data == data[0..4] + data[4..8] + [data[8], data[9], data[10], data[11], data[12]];
    }
    if CanonicalHeader(data, width, height, color) {
      BigEndianRoundTrip(width, 4);
      BigEndianRoundTrip(height, 4);
      assert data[0..4] == BigEndian(width, 4) && data[4..8] == BigEndian(height, 4);
    }
  }

  lemma CanonicalAccepted(codec: Codec, chunks: seq<Chunk>, width: nat, height: nat)
    requires Canonical(codec, chunks, width, height)
    ensures Fold(START, chunks).Ok? && Conclude(codec, Fold(START, chunks).value) == Ok((width, height))
  {
    var color :| color in {2, 6} && CanonicalHeader(chunks[0].data, width, height, color)
         && CompletePixels(codec, Concat(IdatOf(chunks)), width, height, color);
    HeaderRead(chunks[0].data, width, height, color);
    PassesMeans(codec, Concat(IdatOf(chunks)), Header(width, height, color));
    hide CompletePixels;
    var rest := chunks[1..];
    assert forall i :: 0 <= i < |rest| ==> rest[i] == chunks[i + 1];
    var st := Walk(Some(Header(width, height, color)), [], false, false);
    assert chunks[0].kind == IHDR;
    assert Step(START, chunks[0], |chunks| == 1) == Ok(st);
    FoldTail(st, rest);
    assert IdatOf(chunks) == [] + IdatOf(rest);
  }

  lemma FirstStep(c: Chunk, last: bool)
    requires Step(START, c, last).Ok?
    ensures c.kind == IHDR && |c.data| == 13 && ReadHeader(c.data).Ok?
    ensures Step(START, c, last).value == Walk(Some(ReadHeader(c.data).value), [], false, false)
  {
  }

  lemma InOrderFromTail(chunks: seq<Chunk>)
    requires |chunks| >= 2 && chunks[0].kind == IHDR && TailOk(chunks[1..])
    requires chunks[|chunks| - 1].kind == IEND && forall c :: c in chunks ==> c.Valid()
    ensures InOrder(chunks)
  {
    var rest := chunks[1..];
    assert rest[|rest| - 1] == chunks[|chunks| - 1];
    forall i | 0 <= i < |chunks|
      ensures chunks[i].Valid() && chunks[i].kind !in FORBIDDEN
      ensures chunks[i].kind == IHDR <==> i == 0
      ensures chunks[i].kind == IEND <==> i == |chunks| - 1
    {
      assert chunks[i] in chunks && (i > 0 ==> chunks[i] == rest[i - 1]);
    }
  }

  lemma AcceptedCanonical(codec: Codec, chunks: seq<Chunk>, width: nat, height: nat)
    requires forall c :: c in chunks ==> c.Valid()
    requires Fold(START, chunks).Ok? && Conclude(codec, Fold(START, chunks).value) == Ok((width, height))
    ensures Canonical(codec, chunks, width, height)
  {
    hide Step, CanonicalHeader, FiltersKnown, Concat, ReadHeader, TailOk, InOrder, CompletePixels;
    FirstStep(chunks[0], |chunks| == 1);
    var h, rest := ReadHeader(chunks[0].data).value, chunks[1..];
    FoldTail(Walk(Some(h), [], false, false), rest);
    InOrderFromTail(chunks);
    HeaderRead(chunks[0].data, h.width, h.height, h.color);
    assert IdatOf(chunks) == [] + IdatOf(rest);
    assert Passes(codec, Concat(IdatOf(chunks)), h);
    PassesMeans(codec, Concat(IdatOf(chunks)), h);
  }

  /** The strict walker accepts a file with the given size exactly when the
      file is the rendering of a canonical chunk list of that size. */
  lemma StrictAcceptsCanonical(codec: Codec, raw: seq<byte>, width: nat, height: nat)
    ensures StrictDimensions(codec, raw) == Ok((width, height))
            <==> exists chunks: seq<Chunk> ::
                   Canonical(codec, chunks, width, height) && raw == SIGNATURE + RenderAll(codec, chunks)
  {
    if StrictDimensions(codec, raw) == Ok((width, height)) {
      var chunks := WalkedChunks(codec, raw, 8, START);
      WalkRendered(codec, raw, 8, START, chunks);
      AcceptedCanonical(codec, chunks, width, height);
      assert raw == raw[..8] + raw[8..] && raw[..8] == SIGNATURE;
    }
    if chunks: seq<Chunk> :| Canonical(codec, chunks, width, height) && raw == SIGNATURE + RenderAll(codec, chunks) {
      assert raw[8..] == RenderAll(codec, chunks);
      WalkRendered(codec, raw, 8, START, chunks);
      CanonicalAccepted(codec, chunks, width, height);
    }
  }

  // ------------------------------------------------------------ the header reader

  /** `png_dimensions` of the comparison audit: the first 24 bytes only. */
  function HeaderDimensions(raw: seq<byte>): Option<(nat, nat)> {
    var header := if |raw| < 24 then raw else raw[..24];
    if |header| != 24 || header[..8] != SIGNATURE || header[12..16] != IHDR then None else
    var width, height := Word(header, 16), Word(header, 20);
    if width == 0 || height == 0 then None else Some((width, height))
  }

  /** The header reader accepts exactly the files that begin with the signature,
      any length, the name of a header, and two sizes that are not zero. */
  lemma HeaderExactly(raw: seq<byte>, width: nat, height: nat)
    ensures HeaderDimensions(raw) == Some((width, height)) <==>
            && |raw| >= 24 && raw[..8] == [137, 80, 78, 71, 13, 10, 26, 10] && raw[12..16] == Ascii("IHDR")
            && 0 < width < 0x1_0000_0000 && 0 < height < 0x1_0000_0000
            && raw[16..20] == BigEndian(width, 4) && raw[20..24] == BigEndian(height, 4)
  {
    hide BigEndian, FromBigEndian, Ascii;
    NamesOfStandard();
    Bounds();
    if |raw| >= 24 {
      SliceOfSlice(raw, 0, 24, 0, 8);
      SliceOfSlice(raw, 0, 24, 12, 16);
      SliceOfSlice(raw, 0, 24, 16, 20);
      SliceOfSlice(raw, 0, 24, 20, 24);
      assert raw[0..24] == raw[..24] && raw[..24][0..8] == raw[..24][..8] && raw[0..8] == raw[..8];
      BigEndianOf(raw[16..20]);
      BigEndianOf(raw[20..24]);
      if width < 0x1_0000_0000 && height < 0x1_0000_0000 {
        BigEndianRoundTrip(width, 4);
        BigEndianRoundTrip(height, 4);
      }
    }
  }

  lemma {:induction false} WalkKeepsHeader(codec: Codec, raw: seq<byte>, offset: nat, st: Walk)
    requires st.header.Some? && WalkFrom(codec, raw, offset, st).Ok?
    ensures WalkFrom(codec, raw, offset, st).value.header == st.header
    decreases |raw| - offset
  {
    hide ReadChunk;
    if offset < |raw| {
      var c := ReadChunk(codec, raw, offset).value;
      var end := offset + 12 + |c.data|;
      WalkKeepsHeader(codec, raw, end, Step(st, c, end == |raw|).value);
    }
  }

  /** On every file the strict walker accepts, both readers agree. */
  lemma StrictThenHeader(codec: Codec, raw: seq<byte>)
    requires StrictDimensions(codec, raw).Ok?
    ensures HeaderDimensions(raw) == Some(StrictDimensions(codec, raw).value)
  {
    var c := ReadChunk(codec, raw, 8).value;
    var end := 8 + 12 + |c.data|;
    var st := Step(START, c, end == |raw|).value;
    WalkKeepsHeader(codec, raw, end, st);
    HeaderBytes(codec, raw, st.header.value);
  }

  lemma HeaderBytes(codec: Codec, raw: seq<byte>, h: Header)
    requires SIGNATURE <= raw && ReadChunk(codec, raw, 8).Ok?
    requires var c := ReadChunk(codec, raw, 8).value; c.kind == IHDR && |c.data| == 13 && ReadHeader(c.data) == Ok(h)
    ensures HeaderDimensions(raw) == Some((h.width, h.height))
  {
    hide FromBigEndian;
    var data := ReadChunk(codec, raw, 8).value.data;
    SliceOfSlice(raw, 0, 24, 12, 16);
    SliceOfSlice(raw, 0, 24, 16, 20);
    SliceOfSlice(raw, 0, 24, 20, 24);
    SliceOfSlice(raw, 16, 29, 0, 4);
    SliceOfSlice(raw, 16, 29, 4, 8);
    assert raw[0..24] == raw[..24] && raw[..24][..8] == raw[..8] == SIGNATURE;
    assert data == raw[16..29];
  }
}
