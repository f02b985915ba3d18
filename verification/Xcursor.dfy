/** The Xcursor writer (scripts/build-cursors.py:221-256) and a reader of the
    format, section 'CURSOR FILES' of Xcursor(3). */
module Xcursor {
  import opened Bytes
  import opened Wrappers

  const MAGIC: nat := 0x72756358
  const FILE_HEADER: nat := 16
  const VERSION: nat := 0x0001_0000
  const IMAGE_TYPE: nat := 0xFFFD_0002
  const IMAGE_HEADER: nat := 36
  const WORD: nat := 0x1_0000_0000

  /** A straight-alpha pixel, in the order the bytes are in. */
  datatype Pixel = Pixel(b: byte, g: byte, r: byte, a: byte)

  datatype Frame = Frame(nominal: nat, width: nat, height: nat, xhot: nat, yhot: nat, delay: nat, pixels: seq<Pixel>)

  /** What `struct.pack` demands of a frame, and what an image is. */
  predicate Packable(f: Frame) {
    && f.nominal < WORD && f.width < WORD && f.height < WORD && f.xhot < WORD && f.yhot < WORD && f.delay < WORD
    && |f.pixels| == f.width * f.height
  }

  predicate AllPackable(frames: seq<Frame>) {
    forall i :: 0 <= i < |frames| ==> Packable(frames[i])
  }

  // ------------------------------------------------------------ pixels

  function Scaled(a: byte, c: byte): (s: byte)
    ensures s <= a && s <= c
    ensures 255 * s <= (a as int) * (c as int) < 255 * s + 255
    ensures a == 255 ==> s == c
  {
    Product(a, c);
    ((a as int) * (c as int)) / 255
  }

  lemma Product(a: int, c: int)
    requires 0 <= a <= 255 && 0 <= c <= 255
    ensures 0 <= a * c <= a * 255 && a * c <= 255 * c
  {
  }

  function PremultipliedPixel(p: Pixel): (out: seq<byte>)
    ensures |out| == 4
  {
    [Scaled(p.a, p.b), Scaled(p.a, p.g), Scaled(p.a, p.r), p.a]
  }

  /** Alpha times each colour, pixel by pixel. */
  function Premultiplied(pixels: seq<Pixel>): (out: seq<byte>)
    ensures |out| == 4 * |pixels|
  {
    if pixels == [] then [] else PremultipliedPixel(pixels[0]) + Premultiplied(pixels[1..])
  }

  /** The inner loop of `_xcursor`. */
  method Premultiply(pixels: seq<Pixel>) returns (out: seq<byte>)
    ensures out == Premultiplied(pixels)
  {
    hide Scaled;
    out := [];
    assert pixels[0..] == pixels;
    for i := 0 to |pixels|
      invariant Premultiplied(pixels) == out + Premultiplied(pixels[i..])
    {
      var p := pixels[i];
      assert pixels[i..][0] == p && pixels[i..][1..] == pixels[i + 1..];
      out := out + [Scaled(p.a, p.b), Scaled(p.a, p.g), Scaled(p.a, p.r), p.a];
    }
  }

  lemma Skipped<T>(a: seq<T>, b: seq<T>, i: nat, j: nat)
    requires i <= j <= |b|
    ensures (a + b)[|a| + i..|a| + j] == b[i..j]
  {
  }

  /** Pixel `k` of an image is stored in bytes `4k` to `4k + 3`. */
  lemma {:induction false} PixelAt(pixels: seq<Pixel>, k: nat)
    requires k < |pixels|
    ensures Premultiplied(pixels)[4 * k..4 * k + 4] == PremultipliedPixel(pixels[k])
  {
    hide PremultipliedPixel;
    var rest := Premultiplied(pixels[1..]);
    if k > 0 {
      PixelAt(pixels[1..], k - 1);
      Skipped(PremultipliedPixel(pixels[0]), rest, 4 * (k - 1), 4 * k);
    }
  }

  /** Each stored colour is the rounded-down product with alpha over 255; it is
      at most its alpha, alpha is kept, and so is an opaque pixel. */
  lemma StoredPixel(pixels: seq<Pixel>, k: nat)
    requires k < |pixels|
    ensures var out := Premultiplied(pixels)[4 * k..4 * k + 4]; var p := pixels[k];
            && out[3] == p.a && out[0] <= p.a && out[1] <= p.a && out[2] <= p.a
            && IsProduct(out[0], p.a, p.b) && IsProduct(out[1], p.a, p.g) && IsProduct(out[2], p.a, p.r)
            && (p.a == 255 ==> out == [p.b, p.g, p.r, p.a])
  {
    hide Premultiplied, Scaled, IsProduct;
    var p := pixels[k];
    PixelAt(pixels, k);
    ScaledIsProduct(p.a, p.b);
    ScaledIsProduct(p.a, p.g);
    ScaledIsProduct(p.a, p.r);
  }

  /** `s` is `a` times `c` over 255, rounded down. */
  predicate IsProduct(s: byte, a: byte, c: byte) {
    s as int == (a as int) * (c as int) / 255
  }

  lemma ScaledIsProduct(a: byte, c: byte)
    ensures IsProduct(Scaled(a, c), a, c)
  {
  }

  // ------------------------------------------------------------ words

  /** `struct.pack("<I...", ...)`. */
  function Words(ws: seq<nat>): (s: seq<byte>)
    ensures |s| == 4 * |ws|
  {
    if ws == [] then [] else LittleEndian(ws[0], 4) + Words(ws[1..])
  }

  /** `n` words starting at `offset`. */
  function ReadWords(s: seq<byte>, offset: nat, n: nat): (ws: seq<nat>)
    requires offset + 4 * n <= |s|
    ensures |ws| == n
    decreases n
  {
    if n == 0 then [] else [FromLittleEndian(s[offset..offset + 4])] + ReadWords(s, offset + 4, n - 1)
  }

  lemma {:induction false} WordsRead(s: seq<byte>, offset: nat, ws: seq<nat>)
    requires At(s, offset, Words(ws)) && forall i :: 0 <= i < |ws| ==> ws[i] < WORD
    ensures ReadWords(s, offset, |ws|) == ws
    decreases |ws|
  {
    hide LittleEndian, FromLittleEndian;
    if ws != [] {
      AtSplit(s, offset, LittleEndian(ws[0], 4), Words(ws[1..]));
      Bounds();
      LittleEndianRoundTrip(ws[0], 4);
      WordsRead(s, offset + 4, ws[1..]);
    }
  }

  lemma {:induction false} WordsAppend(a: seq<nat>, b: seq<nat>)
    ensures Words(a + b) == Words(a) + Words(b)
  {
    if a == [] {
      assert a + b == b;
    } else {
      assert (a + b)[1..] == a[1..] + b;
      WordsAppend(a[1..], b);
    }
  }

  // ------------------------------------------------------------ the writer

  function ImageWords(f: Frame): seq<nat> {
    [IMAGE_HEADER, IMAGE_TYPE, f.nominal, 1, f.width, f.height, f.xhot, f.yhot, f.delay]
  }

  function Chunk(f: Frame): (c: seq<byte>)
    ensures |c| == IMAGE_HEADER + 4 * |f.pixels|
  {
    Words(ImageWords(f)) + Premultiplied(f.pixels)
  }

  function Body(frames: seq<Frame>): seq<byte> {
    if frames == [] then [] else Chunk(frames[0]) + Body(frames[1..])
  }

  /** The table of contents when the first chunk starts at `position`. */
  function Toc(frames: seq<Frame>, position: nat): (ws: seq<nat>)
    ensures |ws| == 3 * |frames|
    decreases |frames|
  {
    if frames == [] then []
    else [IMAGE_TYPE, frames[0].nominal, position] + Toc(frames[1..], position + |Chunk(frames[0])|)
  }

  function FirstChunk(frames: seq<Frame>): nat {
    FILE_HEADER + 12 * |frames|
  }

  function FileOf(frames: seq<Frame>): seq<byte> {
    Words([MAGIC, FILE_HEADER, VERSION, |frames|]) + Words(Toc(frames, FirstChunk(frames))) + Body(frames)
  }

  /** `_xcursor`. */
  method WriteXcursor(frames: seq<Frame>) returns (data: seq<byte>)
    ensures data == FileOf(frames)
  {
    hide Words, Body, Toc, Flat;
    Nothing();
    var toc, body := WriteChunks(frames);
    data := Words([MAGIC, FILE_HEADER, VERSION, |toc|]);
    ghost var words := [];
    for k := 0 to |toc|
      invariant data == Words([MAGIC, FILE_HEADER, VERSION, |toc|]) + Words(words)
      invariant words == Flat(toc[..k])
    {
      var (entry, subtype, position) := toc[k];
      assert toc[..k + 1] == toc[..k] + [toc[k]];
      FlatAppend(toc[..k], toc[k]);
      WordsAppend(words, [entry, subtype, position]);
      data := data + Words([entry, subtype, position]);
      words := words + [entry, subtype, position];
    }
    assert toc[..|toc|] == toc;
    data := data + body;
  }

  lemma Nothing()
    ensures Words([]) == [] && Flat([]) == []
    ensures Body([]) == [] && forall position: nat :: Toc([], position) == []
  {
  }

  function Flat(toc: seq<(nat, nat, nat)>): seq<nat> {
    if toc == [] then [] else [toc[0].0, toc[0].1, toc[0].2] + Flat(toc[1..])
  }

  lemma {:induction false} FlatAppend(a: seq<(nat, nat, nat)>, b: (nat, nat, nat))
    ensures Flat(a + [b]) == Flat(a) + [b.0, b.1, b.2]
  {
    if a == [] {
      assert a + [b] == [b] && [b][1..] == [];
    } else {
      assert (a + [b])[1..] == a[1..] + [b];
      FlatAppend(a[1..], b);
    }
  }

  /** The loop over the images: chunks, and where each one will start. */
  method WriteChunks(frames: seq<Frame>) returns (toc: seq<(nat, nat, nat)>, body: seq<byte>)
    ensures |toc| == |frames| && Flat(toc) == Toc(frames, FirstChunk(frames)) && body == Body(frames)
  {
    hide Words, Premultiplied, Flat, Chunk, Toc, Body;
    toc, body := [], [];
    var position: nat := FILE_HEADER + 12 * |frames|;
    assert frames[0..] == frames;
    Nothing();
    for k := 0 to |frames|
      invariant |toc| == k
      invariant Body(frames) == body + Body(frames[k..])
      invariant Toc(frames, FirstChunk(frames)) == Flat(toc) + Toc(frames[k..], position)
    {
      var f := frames[k];
      assert frames[k..][0] == f && frames[k..][1..] == frames[k + 1..];
      OneChunk(frames[k..], position);
      ChunkIs(f);
      var header := Words([IMAGE_HEADER, IMAGE_TYPE, f.nominal, 1, f.width, f.height, f.xhot, f.yhot, f.delay]);
      var out := Premultiply(f.pixels);
      var chunk := header + out;
      FlatAppend(toc, (IMAGE_TYPE, f.nominal, position));
      toc := toc + [(IMAGE_TYPE, f.nominal, position)];
      body := body + chunk;
      position := position + |chunk|;
    }
  }

  lemma OneChunk(frames: seq<Frame>, position: nat)
    requires frames != []
    ensures Body(frames) == Chunk(frames[0]) + Body(frames[1..])
    ensures Toc(frames, position)
            == [IMAGE_TYPE, frames[0].nominal, position] + Toc(frames[1..], position + |Chunk(frames[0])|)
  {
    hide Chunk;
  }

  lemma ChunkIs(f: Frame)
    ensures Chunk(f) == Words([IMAGE_HEADER, IMAGE_TYPE, f.nominal, 1, f.width, f.height, f.xhot, f.yhot, f.delay])
                        + Premultiplied(f.pixels)
  {
  }

  // ------------------------------------------------------------ the reader

  datatype Image = Image(nominal: nat, width: nat, height: nat, xhot: nat, yhot: nat, delay: nat, pixels: seq<byte>)

  /** One image chunk, checked against its table-of-contents entry. */
  function ReadImage(s: seq<byte>, kind: nat, subtype: nat, position: nat): Option<Image> {
    if position + 36 > |s| then None else
    var w := ReadWords(s, position, 9);
    if w[0] != 36 || w[1] != kind || w[2] != subtype || w[3] != 1 then None else
    var start, size := position + 36, 4 * (w[4] * w[5]);
    if start + size > |s| then None
    else Some(Image(subtype, w[4], w[5], w[6], w[7], w[8], s[start..start + size]))
  }

  /** The images of the `n` table entries from `offset` on. */
  function ReadEntries(s: seq<byte>, offset: nat, n: nat): Option<seq<Image>>
    requires offset + 12 * n <= |s|
    decreases n
  {
    if n == 0 then Some([]) else
    var entry := ReadWords(s, offset, 3);
    match ReadEntries(s, offset + 12, n - 1)
    case None => None
    case Some(rest) =>
      if entry[0] != 0xFFFD_0002 then Some(rest) else
      match ReadImage(s, entry[0], entry[1], entry[2])
      case None => None
      case Some(image) => Some([image] + rest)
  }

  /** The file header: the letters "Xcur", its own size, the version, and how
      many entries the table has. */
  function ReadFile(s: seq<byte>): Option<seq<Image>> {
    if |s| < 16 || s[..4] != Ascii("Xcur") then None else
    var header := ReadWords(s, 0, 4);
    if header[1] != 16 || header[2] != 0x1_0000 || |s| < 16 + 12 * header[3] then None
    else ReadEntries(s, 16, header[3])
  }

  function ImageOf(f: Frame): Image {
    Image(f.nominal, f.width, f.height, f.xhot, f.yhot, f.delay, Premultiplied(f.pixels))
  }

  function Images(frames: seq<Frame>): seq<Image> {
    if frames == [] then [] else [ImageOf(frames[0])] + Images(frames[1..])
  }

  lemma ImageRead(s: seq<byte>, f: Frame, position: nat)
    requires Packable(f) && At(s, position, Chunk(f))
    ensures ReadImage(s, IMAGE_TYPE, f.nominal, position) == Some(ImageOf(f))
  {
    hide Words, ReadWords, Premultiplied;
    AtSplit(s, position, Words(ImageWords(f)), Premultiplied(f.pixels));
    WordsRead(s, position, ImageWords(f));
  }

  lemma {:induction false} EntriesRead(s: seq<byte>, offset: nat, frames: seq<Frame>, position: nat)
    requires AllPackable(frames) && |s| < WORD
    requires At(s, offset, Words(Toc(frames, position))) && At(s, position, Body(frames))
    ensures ReadEntries(s, offset, |frames|) == Some(Images(frames))
    decreases |frames|
  {
    hide Words, ReadWords, ReadImage, Chunk, ImageOf;
    if frames != [] {
      var entry, rest := [IMAGE_TYPE, frames[0].nominal, position], Toc(frames[1..], position + |Chunk(frames[0])|);
      assert Packable(frames[0]);
      WordsAppend(entry, rest);
      AtSplit(s, offset, Words(entry), Words(rest));
      AtSplit(s, position, Chunk(frames[0]), Body(frames[1..]));
      WordsRead(s, offset, entry);
      ImageRead(s, frames[0], position);
      EntriesRead(s, offset + 12, frames[1..], position + |Chunk(frames[0])|);
    }
  }

  lemma FileParts(frames: seq<Frame>)
    ensures var s := FileOf(frames);
            && At(s, 0, Words([MAGIC, FILE_HEADER, VERSION, |frames|]))
            && At(s, FILE_HEADER, Words(Toc(frames, FirstChunk(frames))))
            && At(s, FirstChunk(frames), Body(frames))
            && |s| == FirstChunk(frames) + |Body(frames)|
  {
    hide Words, Toc, Body, At;
    var s, head := FileOf(frames), Words([MAGIC, FILE_HEADER, VERSION, |frames|]);
    var toc := Words(Toc(frames, FirstChunk(frames)));
    AtWhole(s);
    AtSplit(s, 0, head + toc, Body(frames));
    AtSplit(s, 0, head, toc);
  }

  /** A file reads back to the frames it was written from: nominal sizes,
      dimensions, hotspots, delays and premultiplied pixels, in order. The
      whole file must fit the 32-bit positions, as `struct.pack` demands. */
  lemma FileRoundTrip(frames: seq<Frame>)
    requires AllPackable(frames) && |FileOf(frames)| < WORD
    ensures ReadFile(FileOf(frames)) == Some(Images(frames))
  {
    FileParts(frames);
    Letters(frames);
    hide Words, Toc, Body, FileOf, ReadWords, ReadEntries, Images, Ascii;
    WordsRead(FileOf(frames), 0, [MAGIC, FILE_HEADER, VERSION, |frames|]);
    EntriesRead(FileOf(frames), FILE_HEADER, frames, FirstChunk(frames));
  }

  lemma Letters(frames: seq<Frame>)
    ensures |FileOf(frames)| >= 16 && FileOf(frames)[..4] == Ascii("Xcur")
  {
    hide Toc, Body;
    var header := Words([MAGIC, FILE_HEADER, VERSION, |frames|]);
    assert header[..4] == LittleEndian(MAGIC, 4) == [0x58, 0x63, 0x75, 0x72] by {
      hide LittleEndian;
      LowByteFirst(MAGIC, 0x58, 0x63, 0x75, 0x72);
    }
    assert Ascii("Xcur") == [0x58, 0x63, 0x75, 0x72];
    assert FileOf(frames)[..4] == header[..4];
  }

  lemma LowByteFirst(n: nat, a: byte, b: byte, c: byte, d: byte)
    requires n == (a as int) + 0x100 * (b as int) + 0x1_0000 * (c as int) + 0x100_0000 * (d as int)
    ensures LittleEndian(n, 4) == [a, b, c, d]
  {
    WordWeights(d, c, b, a);
    Bounds();
    LittleEndianOf([a, b, c, d]);
  }

  /** Where chunk `k` starts, adding up the chunks before it. */
  function Start(frames: seq<Frame>, position: nat, k: nat): nat
    requires k <= |frames|
    decreases k
  {
    if k == 0 then position else Start(frames, position, k - 1) + |Chunk(frames[k - 1])|
  }

  lemma {:induction false} StartShift(frames: seq<Frame>, position: nat, k: nat)
    requires 0 < k <= |frames|
    ensures Start(frames, position, k) == Start(frames[1..], position + |Chunk(frames[0])|, k - 1)
  {
    hide Chunk;
    if k > 1 {
      StartShift(frames, position, k - 1);
    }
  }

  /** The body is as long as its chunks. */
  lemma {:induction false} StartOfEnd(frames: seq<Frame>, position: nat)
    ensures Start(frames, position, |frames|) == position + |Body(frames)|
    decreases |frames|
  {
    hide Chunk, Start;
    if frames == [] {
      StartOfFirst(frames, position);
    } else {
      StartShift(frames, position, |frames|);
      StartOfEnd(frames[1..], position + |Chunk(frames[0])|);
    }
  }

  /** Each chunk of the body is where the chunks before it end. */
  lemma {:induction false} ChunkAtStart(s: seq<byte>, frames: seq<Frame>, position: nat, k: nat)
    requires At(s, position, Body(frames)) && k < |frames|
    ensures At(s, Start(frames, position, k), Chunk(frames[k]))
    decreases |frames|
  {
    hide Chunk, At, Start;
    AtSplit(s, position, Chunk(frames[0]), Body(frames[1..]));
    if k == 0 {
      StartOfFirst(frames, position);
    } else {
      StartShift(frames, position, k);
      ChunkAtStart(s, frames[1..], position + |Chunk(frames[0])|, k - 1);
    }
  }

  lemma StartOfFirst(frames: seq<Frame>, position: nat)
    ensures Start(frames, position, 0) == position
  {
  }

  /** And that is what the table says. */
  lemma {:induction false} EntryOfStart(frames: seq<Frame>, position: nat, k: nat)
    requires k < |frames|
    ensures Toc(frames, position)[3 * k..3 * k + 3] == [IMAGE_TYPE, frames[k].nominal, Start(frames, position, k)]
    decreases |frames|
  {
    hide Chunk, Start, Toc, Body;
    var entry, next := [IMAGE_TYPE, frames[0].nominal, position], position + |Chunk(frames[0])|;
    var rest := Toc(frames[1..], next);
    OneChunk(frames, position);
    if k == 0 {
      StartOfFirst(frames, position);
      FrontOf(entry, rest);
    } else {
      StartShift(frames, position, k);
      EntryOfStart(frames[1..], next, k - 1);
      Skipped(entry, rest, 3 * (k - 1), 3 * k);
    }
  }

  lemma FrontOf<T>(a: seq<T>, b: seq<T>)
    ensures (a + b)[0..|a|] == a
  {
  }

  /** Every table-of-contents position is the start of its own chunk, and the
      chunks tile the file from the end of the table to its last byte. */
  lemma ChunksTileFile(frames: seq<Frame>, k: nat)
    requires k < |frames|
    ensures var first := FirstChunk(frames);
            && Toc(frames, first)[3 * k..3 * k + 3] == [0xFFFD_0002, frames[k].nominal, Start(frames, first, k)]
            && At(FileOf(frames), Start(frames, first, k), Chunk(frames[k]))
            && Start(frames, first, 0) == 16 + 12 * |frames|
            && Start(frames, first, k + 1) == Start(frames, first, k) + |Chunk(frames[k])|
            && Start(frames, first, |frames|) == |FileOf(frames)|
  {
    FileParts(frames);
    hide Chunk, FileOf, Toc, Body, At;
    ChunkAtStart(FileOf(frames), frames, FirstChunk(frames), k);
    EntryOfStart(frames, FirstChunk(frames), k);
    StartOfEnd(frames, FirstChunk(frames));
  }
}
