/** The dependency-free PNG loader of the reference tools and the three PNG
    writers, tied together through the strict walker
    (scripts/measure-reference.py:28-74, scripts/a11y/orca_audit.py:79-87,
    scripts/behavior/run_desktop_first_paint.py:99-130). */
module PngImages {
  import opened Bytes
  import opened Wrappers
  import opened PngContainer
  import opened PngFilters

  datatype Image = Image(w: nat, h: nat, channels: nat, data: seq<byte>)

  datatype LoadError = NotAPng | Malformed | NotEightBit | UnknownColor | BadZlib | ShortStream

  datatype Info = Info(w: nat, h: nat, depth: byte, color: byte)

  /** What the loader has read so far. */
  datatype Loaded = Loaded(info: Option<Info>, idat: seq<byte>)

  /** A Python slice: bounds past the end are cut off. */
  function Slice(s: seq<byte>, a: nat, b: nat): (part: seq<byte>)
    requires a <= b
    ensures |part| <= b - a && (|part| < b - a ==> |s| < b)
    ensures a <= |s| ==> a + |part| <= |s| && part == s[a..a + |part|]
  {
    if |s| <= a then [] else if |s| <= b then s[a..] else s[a..b]
  }

  function LoadFrom(raw: seq<byte>, i: nat, st: Loaded): Result<Loaded, LoadError>
    decreases |raw| - i
  {
    if i >= |raw| then Ok(st)
    else if i + 4 > |raw| then Err(Malformed)
    else
      var length := Word(raw, i);
      var kind, chunk := Slice(raw, i + 4, i + 8), Slice(raw, i + 8, i + 8 + length);
      if kind == IHDR then
        if |chunk| < 10 then Err(Malformed)
        else LoadFrom(raw, i + 12 + length, st.(info := Some(Info(Word(chunk, 0), Word(chunk, 4), chunk[8], chunk[9]))))
      else if kind == IDAT then LoadFrom(raw, i + 12 + length, st.(idat := st.idat + chunk))
      else if kind == IEND then Ok(st)
      else LoadFrom(raw, i + 12 + length, st)
  }

  /** Channels of a pixel by the colour type's bits, section 4.1.1 of RFC 2083:
      three with bit 1 and one without it, one more with bit 2. */
  lemma ChannelsOfStandard(color: byte)
    ensures Channels(color).Some? <==> color == 0 || color == 2 || color == 4 || color == 6
    ensures Channels(color).Some? ==>
              Channels(color).value == (if color / 2 % 2 == 1 then 3 else 1) + (if color / 4 % 2 == 1 then 1 else 0)
  {
  }

  function Channels(color: byte): Option<nat> {
    if color == 0 then Some(1) else if color == 2 then Some(3)
    else if color == 4 then Some(2) else if color == 6 then Some(4) else None
  }

  function Decode(codec: Codec, st: Loaded): Result<Image, LoadError> {
    if st.info.None? || st.info.value.depth != 8 then Err(NotEightBit) else
    var info := st.info.value;
    if Channels(info.color).None? then Err(UnknownColor) else
    var channels := Channels(info.color).value;
    match codec.inflate(st.idat)
    case None => Err(BadZlib)
    case Some(raw) =>
      match DecodeRows(raw, 0, info.h, Zeros(info.w * channels), channels)
      case None => Err(ShortStream)
      case Some(data) => Ok(Image(info.w, info.h, channels, data))
  }

  function LoadImage(codec: Codec, raw: seq<byte>): Result<Image, LoadError> {
    if !(SIGNATURE <= raw) then Err(NotAPng) else
    match LoadFrom(raw, 8, Loaded(None, []))
    case Err(e) => Err(e)
    case Ok(st) => Decode(codec, st)
  }

  /** `load`: walk the chunks, inflate, reconstruct the rows. */
  method Load(codec: Codec, raw: seq<byte>) returns (r: Result<Image, LoadError>)
    ensures r == LoadImage(codec, raw)
  {
    hide DecodeRows, Word, Slice;
    if !(SIGNATURE <= raw) {
      return Err(NotAPng);
    }
    var i, idat := 8, [];
    var info: Option<Info> := None;
    var going := true;
    while going && i < |raw|
      invariant LoadFrom(raw, 8, Loaded(None, []))
             == if going then LoadFrom(raw, i, Loaded(info, idat)) else Ok(Loaded(info, idat))
      decreases going, |raw| - i
    {
      if i + 4 > |raw| {
        return Err(Malformed);
      }
      var length := Word(raw, i);
      var kind, chunk := Slice(raw, i + 4, i + 8), Slice(raw, i + 8, i + 8 + length);
      i := i + 12 + length;
      if kind == IHDR {
        if |chunk| < 10 {
          return Err(Malformed);
        }
        info := Some(Info(Word(chunk, 0), Word(chunk, 4), chunk[8], chunk[9]));
      } else if kind == IDAT {
        idat := idat + chunk;
      } else if kind == IEND {
        going := false;
      }
    }
    if info.None? || info.value.depth != 8 {
      return Err(NotEightBit);
    }
    var channels := Channels(info.value.color);
    if channels.None? {
      return Err(UnknownColor);
    }
    match codec.inflate(idat) {
      case None => return Err(BadZlib);
      case Some(pixels) =>
        var data := Reconstruct(pixels, info.value.h, info.value.w * channels.value, channels.value);
        if data.None? {
          return Err(ShortStream);
        }
        return Ok(Image(info.value.w, info.value.h, channels.value, data.value));
    }
  }

  // ------------------------------------------------- strict files always load

  /** The loader has seen what the strict walker has seen. */
  ghost predicate Agree(st: Walk, loaded: Loaded) {
    && loaded.idat == Concat(st.idat)
    && loaded.info == (if st.header.None? then None
                       else Some(Info(st.header.value.width, st.header.value.height, 8, st.header.value.color)))
  }

  lemma {:induction false} ConcatSnoc(parts: seq<seq<byte>>, part: seq<byte>)
    ensures Concat(parts + [part]) == Concat(parts) + part
  {
    if parts == [] {
      assert [] + [part] == [part] && [part][1..] == [];
    } else {
      assert (parts + [part])[1..] == parts[1..] + [part];
      ConcatSnoc(parts[1..], part);
    }
  }

  /** A chunk the strict walker reads is read the same way by the loader. */
  lemma SameChunk(codec: Codec, raw: seq<byte>, offset: nat)
    requires ReadChunk(codec, raw, offset).Ok?
    ensures var c := ReadChunk(codec, raw, offset).value;
            && offset + 12 + |c.data| <= |raw| && Word(raw, offset) == |c.data|
            && Slice(raw, offset + 4, offset + 8) == c.kind
            && Slice(raw, offset + 8, offset + 8 + |c.data|) == c.data
  {
  }

  lemma {:induction false} LoadFollowsWalk(codec: Codec, raw: seq<byte>, offset: nat, st: Walk, loaded: Loaded)
    requires WalkFrom(codec, raw, offset, st).Ok? && Agree(st, loaded)
    ensures LoadFrom(raw, offset, loaded).Ok?
    ensures Agree(WalkFrom(codec, raw, offset, st).value, LoadFrom(raw, offset, loaded).value)
    decreases |raw| - offset
  {
    hide ReadChunk, Slice, Word;
    if offset < |raw| {
      var c := ReadChunk(codec, raw, offset).value;
      var end := offset + 12 + |c.data|;
      var next := Step(st, c, end == |raw|).value;
      SameChunk(codec, raw, offset);
      if c.kind == IHDR {
        HeaderFields(c.data);
        LoadFollowsWalk(codec, raw, end, next,
          loaded.(info := Some(Info(Word(c.data, 0), Word(c.data, 4), c.data[8], c.data[9]))));
      } else if c.kind == IDAT {
        ConcatSnoc(st.idat, c.data);
        LoadFollowsWalk(codec, raw, end, next, loaded.(idat := loaded.idat + c.data));
      } else if c.kind == IEND {
        assert Agree(next, loaded);
      } else {
        LoadFollowsWalk(codec, raw, end, next, loaded);
      }
    }
  }

  lemma HeaderFields(data: seq<byte>)
    requires |data| == 13 && ReadHeader(data).Ok?
    ensures ReadHeader(data).value == Header(Word(data, 0), Word(data, 4), data[9]) && data[8] == 8
  {
  }

  /** Every file the strict walker accepts loads, to an image of the accepted
      size whose rows are those of the checked stream. */
  lemma StrictThenLoad(codec: Codec, raw: seq<byte>)
    requires StrictDimensions(codec, raw).Ok?
    ensures LoadImage(codec, raw).Ok?
    ensures var image := LoadImage(codec, raw).value;
            && (image.w, image.h) == StrictDimensions(codec, raw).value
            && image.channels in {3, 4} && |image.data| == image.h * (image.w * image.channels)
    ensures var st := WalkFrom(codec, raw, 8, START).value; var h := st.header.value;
            var channels := if h.color == 2 then 3 else 4;
            && codec.inflate(Concat(st.idat)).Some?
            && DecodeRows(codec.inflate(Concat(st.idat)).value, 0, h.height, Zeros(h.width * channels), channels)
               == Some(LoadImage(codec, raw).value.data)
            && LoadImage(codec, raw).value.channels == channels
  {
    LoadFollowsWalk(codec, raw, 8, START, Loaded(None, []));
    var st := WalkFrom(codec, raw, 8, START).value;
    HeaderColor(codec, raw, 8, START);
    var h := st.header.value;
    var channels := if h.color == 2 then 3 else 4;
    CompleteDecodes(codec.inflate(Concat(st.idat)).value, h.height, Zeros(h.width * channels), channels);
  }

  lemma {:induction false} HeaderColor(codec: Codec, raw: seq<byte>, offset: nat, st: Walk)
    requires WalkFrom(codec, raw, offset, st).Ok?
    requires st.header.Some? ==> st.header.value.color in {2, 6}
    ensures var header := WalkFrom(codec, raw, offset, st).value.header; header.Some? ==> header.value.color in {2, 6}
    decreases |raw| - offset
  {
    hide ReadChunk;
    if offset < |raw| {
      var c := ReadChunk(codec, raw, offset).value;
      var end := offset + 12 + |c.data|;
      HeaderColor(codec, raw, end, Step(st, c, end == |raw|).value);
    }
  }

  // ------------------------------------------------------------ the writers

  function HeaderData(w: nat, h: nat): seq<byte> {
    BigEndian(w, 4) + BigEndian(h, 4) + [8, 2, 0, 0, 0]
  }

  function IdatChunks(parts: seq<seq<byte>>): (chunks: seq<Chunk>)
    ensures |chunks| == |parts|
    ensures forall i :: 0 <= i < |parts| ==> chunks[i] == Chunk(IDAT, parts[i])
  {
    seq(|parts|, i requires 0 <= i < |parts| => Chunk(IDAT, parts[i]))
  }

  /** An 8-bit RGB file whose compressed stream is cut into `parts`. */
  function FileChunks(w: nat, h: nat, parts: seq<seq<byte>>): (chunks: seq<Chunk>)
    ensures |chunks| == |parts| + 2
  {
    [Chunk(IHDR, HeaderData(w, h))] + IdatChunks(parts) + [Chunk(IEND, [])]
  }

  /** The stream the writers compress: each row after a zero filter byte. */
  function PlainStream(rows: seq<seq<byte>>): seq<byte> {
    if rows == [] then [] else [0] + rows[0] + PlainStream(rows[1..])
  }

  /** What the three writers put on disk. `struct.pack` demands sizes below
      2 to the 32. */
  function WriteRgb(codec: Codec, w: nat, h: nat, rows: seq<seq<byte>>): seq<byte>
    requires w < WORD && h < WORD && |codec.deflate(PlainStream(rows))| < WORD
  {
    SIGNATURE + Render(codec, Chunk(IHDR, HeaderData(w, h)))
      + Render(codec, Chunk(IDAT, codec.deflate(PlainStream(rows)))) + Render(codec, Chunk(IEND, []))
  }

  lemma {:induction false} EncodedSize(rows: seq<seq<byte>>, filters: seq<byte>, prev: seq<byte>, bpp: nat)
    requires |filters| == |rows| && bpp > 0
    requires forall y :: 0 <= y < |rows| ==> |rows[y]| == |prev|
    ensures |EncodeRows(rows, filters, prev, bpp)| == |rows| * (|prev| + 1)
    decreases |rows|
  {
    if rows != [] {
      hide FilterRow;
      EncodedSize(rows[1..], filters[1..], rows[0], bpp);
      Steps(|rows|, |prev|);
    }
  }

  lemma {:induction false} EncodedFilter(rows: seq<seq<byte>>, filters: seq<byte>, prev: seq<byte>, bpp: nat, row: nat)
    requires |filters| == |rows| && bpp > 0 && row < |rows|
    requires forall y :: 0 <= y < |rows| ==> |rows[y]| == |prev|
    ensures row * (|prev| + 1) < |EncodeRows(rows, filters, prev, bpp)|
    ensures EncodeRows(rows, filters, prev, bpp)[row * (|prev| + 1)] == filters[row]
    decreases |rows|
  {
    hide FilterRow;
    if row > 0 {
      EncodedFilter(rows[1..], filters[1..], rows[0], bpp, row - 1);
      Steps(row, |prev|);
    }
  }

  lemma {:induction false} IdatOfFile(parts: seq<seq<byte>>)
    ensures IdatOf(IdatChunks(parts) + [Chunk(IEND, [])]) == parts
  {
    var chunks := IdatChunks(parts) + [Chunk(IEND, [])];
    if parts == [] {
      assert chunks[1..] == [];
    } else {
      assert chunks[1..] == IdatChunks(parts[1..]) + [Chunk(IEND, [])];
      IdatOfFile(parts[1..]);
    }
  }

  /** Container round trip: however the rows are filtered and however the
      compressed stream is cut into chunks, the strict walker accepts the file
      with its size and the loader returns exactly the pixels. */
  lemma FileRoundTrip(codec: Codec, w: nat, h: nat, rows: seq<seq<byte>>, filters: seq<byte>, parts: seq<seq<byte>>)
    requires codec.Lossless() && 0 < w < WORD && 0 < h < WORD
    requires |rows| == h == |filters| && (forall y :: 0 <= y < h ==> |rows[y]| == w * 3 && filters[y] <= 4)
    requires h * (w * 3 + 1) <= 67_108_864
    requires parts != [] && forall i :: 0 <= i < |parts| ==> |parts[i]| < WORD
    requires Concat(parts) == codec.deflate(EncodeRows(rows, filters, Zeros(w * 3), 3))
    ensures forall c :: c in FileChunks(w, h, parts) ==> c.Valid()
    ensures var raw := SIGNATURE + RenderAll(codec, FileChunks(w, h, parts));
            && StrictDimensions(codec, raw) == Ok((w, h))
            && HeaderDimensions(raw) == Some((w, h))
            && LoadImage(codec, raw) == Ok(Image(w, h, 3, Concat(rows)))
  {
    var chunks := FileChunks(w, h, parts);
    var raw := SIGNATURE + RenderAll(codec, chunks);
    FileIsCanonical(codec, w, h, rows, filters, parts);
    StrictAcceptsCanonical(codec, raw, w, h);
    StrictThenHeader(codec, raw);
    StrictThenLoad(codec, raw);
    assert raw[8..] == RenderAll(codec, chunks);
    WalkRendered(codec, raw, 8, START, chunks);
    FileWalk(w, h, parts);
    DecodeEncodes(EncodeRows(rows, filters, Zeros(w * 3), 3), 0, rows, filters, Zeros(w * 3), 3);
  }

  lemma HeaderDataRead(w: nat, h: nat)
    requires 0 < w < WORD && 0 < h < WORD
    ensures |HeaderData(w, h)| == 13 && ReadHeader(HeaderData(w, h)) == Ok(Header(w, h, 2))
    ensures CanonicalHeader(HeaderData(w, h), w, h, 2)
  {
    HeaderRead(HeaderData(w, h), w, h, 2);
  }

  lemma FileParts(w: nat, h: nat, parts: seq<seq<byte>>)
    ensures var chunks := FileChunks(w, h, parts);
            && chunks[0] == Chunk(IHDR, HeaderData(w, h))
            && chunks[1..] == IdatChunks(parts) + [Chunk(IEND, [])]
            && IdatOf(chunks) == parts
            && (forall i :: 1 <= i <= |parts| ==> chunks[i] == Chunk(IDAT, parts[i - 1]))
            && chunks[|parts| + 1] == Chunk(IEND, [])
  {
    hide HeaderData;
    var chunks := FileChunks(w, h, parts);
    IdatOfFile(parts);
    assert chunks[1..] == IdatChunks(parts) + [Chunk(IEND, [])];
    assert IdatOf(chunks) == [] + parts == parts;
  }

  lemma FileWalk(w: nat, h: nat, parts: seq<seq<byte>>)
    requires 0 < w < WORD && 0 < h < WORD && parts != []
    ensures Fold(START, FileChunks(w, h, parts)) == Ok(Walk(Some(Header(w, h, 2)), parts, true, false))
  {
    hide HeaderData, ReadHeader, CanonicalHeader, IdatChunks;
    var chunks := FileChunks(w, h, parts);
    FileParts(w, h, parts);
    HeaderDataRead(w, h);
    IdatOfFile(parts);
    assert [] + parts == parts;
    FoldTail(Walk(Some(Header(w, h, 2)), [], false, false), chunks[1..]);
  }

  lemma FileIsCanonical(codec: Codec, w: nat, h: nat, rows: seq<seq<byte>>, filters: seq<byte>, parts: seq<seq<byte>>)
    requires codec.Lossless() && 0 < w < WORD && 0 < h < WORD
    requires |rows| == h == |filters| && (forall y :: 0 <= y < h ==> |rows[y]| == w * 3 && filters[y] <= 4)
    requires h * (w * 3 + 1) <= 67_108_864
    requires parts != [] && forall i :: 0 <= i < |parts| ==> |parts[i]| < WORD
    requires Concat(parts) == codec.deflate(EncodeRows(rows, filters, Zeros(w * 3), 3))
    ensures Canonical(codec, FileChunks(w, h, parts), w, h)
  {
    hide HeaderData, ReadHeader, CanonicalHeader, CompletePixels, IdatChunks, Concat, EncodeRows;
    FileParts(w, h, parts);
    HeaderDataRead(w, h);
    FilePixels(codec, w, h, rows, filters);
  }

  lemma FilePixels(codec: Codec, w: nat, h: nat, rows: seq<seq<byte>>, filters: seq<byte>)
    requires codec.Lossless() && 0 < w < WORD && 0 < h < WORD
    requires |rows| == h == |filters| && (forall y :: 0 <= y < h ==> |rows[y]| == w * 3 && filters[y] <= 4)
    requires h * (w * 3 + 1) <= 67_108_864
    ensures CompletePixels(codec, codec.deflate(EncodeRows(rows, filters, Zeros(w * 3), 3)), w, h, 2)
  {
    hide EncodeRows;
    var pixels, line := EncodeRows(rows, filters, Zeros(w * 3), 3), w * 3 + 1;
    EncodedSize(rows, filters, Zeros(w * 3), 3);
    forall row | 0 <= row < h
      ensures KnownFilter(pixels, line, row)
    {
      EncodedFilter(rows, filters, Zeros(w * 3), 3, row);
    }
  }

  // What the three writers draw.

  type Paint = (nat, nat) -> (byte, byte, byte)

  function PaintRow(w: nat, y: nat, paint: Paint): (row: seq<byte>)
    ensures |row| == w * 3
  {
    if w == 0 then [] else PaintRow(w - 1, y, paint) + [paint(w - 1, y).0, paint(w - 1, y).1, paint(w - 1, y).2]
  }

  lemma {:induction false} PaintRowAt(w: nat, y: nat, paint: Paint, x: nat)
    requires x < w
    ensures PaintRow(w, y, paint)[3 * x] == paint(x, y).0
    ensures PaintRow(w, y, paint)[3 * x + 1] == paint(x, y).1
    ensures PaintRow(w, y, paint)[3 * x + 2] == paint(x, y).2
  {
    if x < w - 1 {
      PaintRowAt(w - 1, y, paint, x);
    }
  }

  function PaintRows(w: nat, h: nat, paint: Paint): (rows: seq<seq<byte>>)
    ensures |rows| == h && forall y :: 0 <= y < h ==> |rows[y]| == w * 3 && rows[y] == PaintRow(w, y, paint)
  {
    seq(h, y requires 0 <= y < h => PaintRow(w, y, paint))
  }

  /** `px`: the colour at a point. */
  function Px(image: Image, x: nat, y: nat): seq<byte> {
    var o := (y * image.w + x) * image.channels;
    Slice(image.data, o, o + 3)
  }

  lemma {:induction false} ConcatAt(rows: seq<seq<byte>>, stride: nat, y: nat, k: nat)
    requires forall j :: 0 <= j < |rows| ==> |rows[j]| == stride
    requires y < |rows| && k < stride
    ensures y * stride + k < |Concat(rows)|
    ensures Concat(rows)[y * stride + k] == rows[y][k]
  {
    if y > 0 {
      ConcatAt(rows[1..], stride, y - 1, k);
      assert y * stride + k == stride + ((y - 1) * stride + k);
    }
  }

  lemma {:induction false} PlainIsUnfiltered(rows: seq<seq<byte>>, prev: seq<byte>)
    requires forall y :: 0 <= y < |rows| ==> |rows[y]| == |prev|
    ensures EncodeRows(rows, Zeros(|rows|), prev, 3) == PlainStream(rows)
    decreases |rows|
  {
    if rows != [] {
      assert Zeros(|rows|)[1..] == Zeros(|rows| - 1);
      assert FilterRow(0, rows[0], prev, 3) == rows[0];
      PlainIsUnfiltered(rows[1..], rows[0]);
    }
  }

  /** A painted image comes back pixel by pixel from the file written for it,
      and both size readers report its size. */
  lemma PaintedPixels(codec: Codec, w: nat, h: nat, paint: Paint, x: nat, y: nat)
    requires codec.Lossless() && x < w < WORD && y < h < WORD
    requires h * (w * 3 + 1) <= 67_108_864
    requires |codec.deflate(PlainStream(PaintRows(w, h, paint)))| < WORD
    ensures var raw := WriteRgb(codec, w, h, PaintRows(w, h, paint));
            && StrictDimensions(codec, raw) == Ok((w, h)) && HeaderDimensions(raw) == Some((w, h))
            && LoadImage(codec, raw).Ok?
            && Px(LoadImage(codec, raw).value, x, y) == [paint(x, y).0, paint(x, y).1, paint(x, y).2]
  {
    hide PaintRow;
    var rows := PaintRows(w, h, paint);
    var body := codec.deflate(PlainStream(rows));
    PlainIsUnfiltered(rows, Zeros(w * 3));
    assert Concat([body]) == body;
    FileRoundTrip(codec, w, h, rows, Zeros(h), [body]);
    OnePartFile(codec, w, h, rows, body);
    PixelOf(w, h, paint, x, y);
  }

  lemma OnePartFile(codec: Codec, w: nat, h: nat, rows: seq<seq<byte>>, body: seq<byte>)
    requires w < WORD && h < WORD && body == codec.deflate(PlainStream(rows)) && |body| < WORD
    requires forall c :: c in FileChunks(w, h, [body]) ==> c.Valid()
    ensures SIGNATURE + RenderAll(codec, FileChunks(w, h, [body])) == WriteRgb(codec, w, h, rows)
  {
    hide Render, HeaderData;
    var chunks := FileChunks(w, h, [body]);
    var last := [Chunk(IEND, [])];
    FileParts(w, h, [body]);
    assert chunks == [chunks[0], Chunk(IDAT, body), Chunk(IEND, [])];
    assert chunks[1..] == [Chunk(IDAT, body), Chunk(IEND, [])] && chunks[1..][1..] == last && last[1..] == [];
    assert RenderAll(codec, last) == Render(codec, last[0]) + [] == Render(codec, last[0]);
    var a, b, c := Render(codec, chunks[0]), Render(codec, chunks[1]), Render(codec, last[0]);
    assert RenderAll(codec, chunks) == a + (b + c);
    assert SIGNATURE + (a + (b + c)) == SIGNATURE + a + b + c;
  }

  lemma PixelOf(w: nat, h: nat, paint: Paint, x: nat, y: nat)
    requires x < w && y < h
    ensures Px(Image(w, h, 3, Concat(PaintRows(w, h, paint))), x, y) == [paint(x, y).0, paint(x, y).1, paint(x, y).2]
  {
    hide Concat, PaintRow;
    var rows, stride, before := PaintRows(w, h, paint), w * 3, y * (w * 3);
    var data := Concat(rows);
    ConcatAt(rows, stride, y, 3 * x);
    ConcatAt(rows, stride, y, 3 * x + 1);
    ConcatAt(rows, stride, y, 3 * x + 2);
    PaintRowAt(w, y, paint, x);
    PixelOffset(w, x, y);
    var o := before + 3 * x;
    assert data[o..o + 3] == [data[o], data[o + 1], data[o + 2]];
  }

  lemma PixelOffset(w: nat, x: nat, y: nat)
    ensures (y * w + x) * 3 == y * (w * 3) + 3 * x
    ensures (y * w + x) * 2 == y * w * 2 + 2 * x
  {
  }

  /** The test image of the accessibility audit. */
  function TinyPaint(): Paint {
    (x, y) => ((x * 4) % 256, (y * 5) % 256, 160)
  }

  function SolidPaint(rgb: (byte, byte, byte)): Paint {
    (x, y) => rgb
  }

  /** `part` repeated, as Python multiplies bytes. */
  function Times(part: seq<byte>, n: nat): seq<byte> {
    if n == 0 then [] else part + Times(part, n - 1)
  }

  lemma {:induction false} TimesSnoc(part: seq<byte>, n: nat)
    ensures Times(part, n + 1) == Times(part, n) + part
  {
    if n > 0 {
      TimesSnoc(part, n - 1);
    }
  }

  lemma {:induction false} SolidRow(w: nat, y: nat, rgb: (byte, byte, byte))
    ensures PaintRow(w, y, SolidPaint(rgb)) == Times([rgb.0, rgb.1, rgb.2], w)
  {
    if w > 0 {
      SolidRow(w - 1, y, rgb);
      TimesSnoc([rgb.0, rgb.1, rgb.2], w - 1);
    }
  }

  lemma {:induction false} SameRows(rows: seq<seq<byte>>, row: seq<byte>)
    requires forall y :: 0 <= y < |rows| ==> rows[y] == row
    ensures PlainStream(rows) == Times([0] + row, |rows|)
  {
    if rows != [] {
      SameRows(rows[1..], row);
    }
  }

  /** `write_solid_png`: one row after its filter byte, `h` times over, is what
      a picture of one colour is compressed from. */
  lemma SolidStream(w: nat, h: nat, rgb: (byte, byte, byte))
    ensures PlainStream(PaintRows(w, h, SolidPaint(rgb))) == Times([0] + Times([rgb.0, rgb.1, rgb.2], w), h)
  {
    hide PaintRow, PlainStream, Times;
    var rows := PaintRows(w, h, SolidPaint(rgb));
    forall y | 0 <= y < h
      ensures rows[y] == Times([rgb.0, rgb.1, rgb.2], w)
    {
      SolidRow(w, y, rgb);
    }
    SameRows(rows, Times([rgb.0, rgb.1, rgb.2], w));
  }

  /** The file of a solid picture has its size and its colour everywhere. */
  lemma SolidFile(codec: Codec, w: nat, h: nat, rgb: (byte, byte, byte), x: nat, y: nat)
    requires codec.Lossless() && x < w < WORD && y < h < WORD && h * (w * 3 + 1) <= 67_108_864
    requires |codec.deflate(Times([0] + Times([rgb.0, rgb.1, rgb.2], w), h))| < WORD
    ensures |codec.deflate(PlainStream(PaintRows(w, h, SolidPaint(rgb))))| < WORD
    ensures var raw := WriteRgb(codec, w, h, PaintRows(w, h, SolidPaint(rgb)));
            && StrictDimensions(codec, raw) == Ok((w, h)) && LoadImage(codec, raw).Ok?
            && Px(LoadImage(codec, raw).value, x, y) == [rgb.0, rgb.1, rgb.2]
  {
    hide LoadImage, WriteRgb, Px, PaintRows, PlainStream, StrictDimensions, Times;
    SolidStream(w, h, rgb);
    PaintedPixels(codec, w, h, SolidPaint(rgb), x, y);
  }

  /** The file of the accessibility audit's picture shows, at each point, four
      times its column and five times its row, modulo 256, and one blue. */
  lemma TinyFile(codec: Codec, w: nat, h: nat, x: nat, y: nat)
    requires codec.Lossless() && x < w < WORD && y < h < WORD && h * (w * 3 + 1) <= 67_108_864
    requires |codec.deflate(PlainStream(PaintRows(w, h, TinyPaint())))| < WORD
    ensures var raw := WriteRgb(codec, w, h, PaintRows(w, h, TinyPaint()));
            && StrictDimensions(codec, raw) == Ok((w, h)) && LoadImage(codec, raw).Ok?
            && Px(LoadImage(codec, raw).value, x, y) == [(4 * x) % 256, (5 * y) % 256, 160]
  {
    hide LoadImage, WriteRgb, Px, PaintRows, PlainStream, StrictDimensions;
    PaintedPixels(codec, w, h, TinyPaint(), x, y);
  }

  /** The screenshot stand-in: two noise bytes a pixel, and no blue. */
  function NoisePaint(noise: seq<byte>, w: nat): Paint {
    (x: nat, y: nat) =>
      var o := (y * w + x) * 2;
      if o + 1 < |noise| then (noise[o], noise[o + 1], 0) else (0, 0, 0)
  }

  /** `pixels[first::3] = chunk[first::2]`, for `first` 0 or 1. */
  method AssignThirds(pixels: array<byte>, chunk: seq<byte>, w: nat, first: nat)
    requires first < 2 && pixels.Length == w * 3 && |chunk| == w * 2
    modifies pixels
    ensures forall k :: 0 <= k < w ==>
      && pixels[3 * k + first] == chunk[2 * k + first]
      && pixels[3 * k + 1 - first] == old(pixels[3 * k + 1 - first])
      && pixels[3 * k + 2] == old(pixels[3 * k + 2])
  {
    for x := 0 to w
      invariant forall k :: 0 <= k < x ==> pixels[3 * k + first] == chunk[2 * k + first]
      invariant forall k :: 0 <= k < w ==>
        && pixels[3 * k + 1 - first] == old(pixels[3 * k + 1 - first])
        && pixels[3 * k + 2] == old(pixels[3 * k + 2])
    {
      pixels[3 * x + first] := chunk[2 * x + first];
    }
  }

  /** The row loop of `write_screenshot_png`. */
  method ScreenshotRows(noise: seq<byte>, w: nat, h: nat) returns (rows: seq<seq<byte>>)
    requires |noise| == w * h * 2
    ensures rows == PaintRows(w, h, NoisePaint(noise, w))
  {
    rows := [];
    for y := 0 to h
      invariant rows == PaintRows(w, h, NoisePaint(noise, w))[..y]
    {
      RowInNoise(w, h, y);
      var start := y * w * 2;
      var row := ScreenshotRow(noise[start..start + w * 2], w);
      NoiseRow(noise, w, y, start, row, w);
      assert row[..w * 3] == row;
      rows := rows + [row];
    }
  }

  method ScreenshotRow(chunk: seq<byte>, w: nat) returns (row: seq<byte>)
    requires |chunk| == w * 2
    ensures |row| == w * 3
    ensures forall k :: 0 <= k < w ==>
      row[3 * k] == chunk[2 * k] && row[3 * k + 1] == chunk[2 * k + 1] && row[3 * k + 2] == 0
  {
    var pixels := new byte[w * 3](_ => 0);
    AssignThirds(pixels, chunk, w, 0);
    AssignThirds(pixels, chunk, w, 1);
    row := pixels[..];
  }

  lemma {:induction false} NoiseRow(noise: seq<byte>, w: nat, y: nat, start: nat, row: seq<byte>, n: nat)
    requires n <= w && |row| == w * 3 && start == y * w * 2 && start + w * 2 <= |noise|
    requires forall k :: 0 <= k < w ==>
      row[3 * k] == noise[start + 2 * k] && row[3 * k + 1] == noise[start + 2 * k + 1] && row[3 * k + 2] == 0
    ensures PaintRow(n, y, NoisePaint(noise, w)) == row[..n * 3]
  {
    if n > 0 {
      NoiseRow(noise, w, y, start, row, n - 1);
      PixelOffset(w, n - 1, y);
      var k := n - 1;
      assert row[..n * 3] == row[..k * 3] + [row[3 * k], row[3 * k + 1], row[3 * k + 2]];
    }
  }

  lemma RowInNoise(w: nat, h: nat, y: nat)
    requires y < h
    ensures 0 <= y * w * 2 && y * w * 2 + w * 2 <= w * h * 2
  {
    assert (y + 1) * w <= h * w;
  }

  /** The screenshot never counts as folder blue: every pixel of the file it
      writes loads with a zero blue byte and its own two noise bytes. */
  lemma ScreenshotHasNoBlue(codec: Codec, w: nat, h: nat, noise: seq<byte>, x: nat, y: nat, o: nat)
    requires codec.Lossless() && x < w < WORD && y < h < WORD && |noise| == w * h * 2
    requires h * (w * 3 + 1) <= 67_108_864
    requires |codec.deflate(PlainStream(PaintRows(w, h, NoisePaint(noise, w))))| < WORD
    requires o == (y * w + x) * 2
    ensures o + 1 < |noise|
    ensures var loaded := LoadImage(codec, WriteRgb(codec, w, h, PaintRows(w, h, NoisePaint(noise, w))));
            loaded.Ok? && Px(loaded.value, x, y) == [noise[o], noise[o + 1], 0]
  {
    hide LoadImage, WriteRgb, Px, PaintRows, PlainStream;
    RowInNoise(w, h, y);
    PixelOffset(w, x, y);
    PaintedPixels(codec, w, h, NoisePaint(noise, w), x, y);
  }
}
