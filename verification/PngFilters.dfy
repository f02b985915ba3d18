/** Scanline filters of section 6 of RFC 2083, and their in-place
    reconstruction (scripts/measure-reference.py:46-68). */
module PngFilters {
  import opened Bytes
  import opened Wrappers

  function Abs(x: int): nat { if x < 0 then -x else x }

  /** The Paeth choice as the script computes it. */
  function Paeth(a: byte, b: byte, c: byte): byte {
    var pa, pb, pc := Abs(b - c), Abs(a - c), Abs(a + b - 2 * c);
    if pa <= pb && pa <= pc then a else if pb <= pc then b else c
  }

  /** What filter `f` predicts from the bytes to the left, above and above left. */
  function Predict(f: byte, a: byte, b: byte, c: byte): byte {
    if f == 1 then a
    else if f == 2 then b
    else if f == 3 then (a + b) / 2
    else if f == 4 then Paeth(a, b, c)
    else 0
  }

  /** The predictions of section 6 of RFC 2083: nothing, the left byte, the one
      above, the lower half of their sum, and for Paeth the neighbour nearest to
      `a + b - c`, ties going to the left one first, then the one above. */
  lemma PredictorsOfStandard(a: byte, b: byte, c: byte)
    ensures Predict(0, a, b, c) == 0 && Predict(1, a, b, c) == a && Predict(2, a, b, c) == b
    ensures 2 * (Predict(3, a, b, c) as int) <= (a as int) + (b as int) <= 2 * (Predict(3, a, b, c) as int) + 1
    ensures var p := (a as int) + (b as int) - (c as int); var r := Predict(4, a, b, c);
            && r in {a, b, c}
            && Abs(p - r) <= Abs(p - a) && Abs(p - r) <= Abs(p - b) && Abs(p - r) <= Abs(p - c)
            && (Abs(p - a) == Abs(p - r) ==> r == a)
            && (Abs(p - b) == Abs(p - r) && Abs(p - a) > Abs(p - r) ==> r == b)
  {
  }

  /** The byte one pixel to the left, zero before the first pixel. */
  function Left(row: seq<byte>, x: nat, bpp: nat): byte
    requires x < |row| + bpp && bpp > 0
  {
    if x >= bpp then row[x - bpp] else 0
  }

  /** Bytes correspond pixel by pixel: byte `c` of a pixel is predicted from byte
      `c` of the pixel before it, and from zero in the first pixel. */
  lemma LeftIsPreviousPixel(row: seq<byte>, pixel: nat, c: nat, bpp: nat)
    requires c < bpp && pixel * bpp + c < |row| + bpp
    ensures pixel == 0 ==> Left(row, pixel * bpp + c, bpp) == 0
    ensures pixel > 0 ==> (pixel - 1) * bpp + c >= 0 && Left(row, pixel * bpp + c, bpp) == row[(pixel - 1) * bpp + c]
  {
    if pixel > 0 {
      assert pixel * bpp == (pixel - 1) * bpp + bpp && (pixel - 1) * bpp >= 0;
    }
  }

  /** The encoder of RFC 2083: the raw byte less the prediction, modulo 256. */
  function FilterRow(f: byte, row: seq<byte>, prev: seq<byte>, bpp: nat): (s: seq<byte>)
    requires |row| == |prev| && bpp > 0
    ensures |s| == |row|
  {
    seq(|row|, x requires 0 <= x < |row| => (row[x] - Predict(f, Left(row, x, bpp), prev[x], Left(prev, x, bpp))) % 256)
  }

  /** The first `n` bytes of the reconstruction of one scanline. */
  function UnfilterTo(f: byte, line: seq<byte>, prev: seq<byte>, bpp: nat, n: nat): (s: seq<byte>)
    requires |line| == |prev| && bpp > 0 && n <= |line|
    ensures |s| == n
  {
    if n == 0 then []
    else
      var done := UnfilterTo(f, line, prev, bpp, n - 1);
      done + [(line[n - 1] + Predict(f, Left(done, n - 1, bpp), prev[n - 1], Left(prev, n - 1, bpp))) % 256]
  }

  function UnfilterRow(f: byte, line: seq<byte>, prev: seq<byte>, bpp: nat): (s: seq<byte>)
    requires |line| == |prev| && bpp > 0
    ensures |s| == |line|
  {
    UnfilterTo(f, line, prev, bpp, |line|)
  }

  lemma UnfilterNothing(f: byte, line: seq<byte>, prev: seq<byte>, bpp: nat)
    requires |line| == |prev| && bpp > 0
    ensures UnfilterTo(f, line, prev, bpp, 0) == []
  {
  }

  lemma UnfilterSnoc(f: byte, line: seq<byte>, prev: seq<byte>, bpp: nat, x: nat)
    requires |line| == |prev| && bpp > 0 && x < |line|
    ensures var done := UnfilterTo(f, line, prev, bpp, x);
            UnfilterTo(f, line, prev, bpp, x + 1)
            == done + [(line[x] + Predict(f, Left(done, x, bpp), prev[x], Left(prev, x, bpp))) % 256]
  {
    hide Predict, Left;
  }

  /** Reconstruction undoes filtering ... */
  lemma {:induction false} UnfilterFilters(f: byte, row: seq<byte>, prev: seq<byte>, bpp: nat, n: nat)
    requires |row| == |prev| && bpp > 0 && n <= |row|
    ensures UnfilterTo(f, FilterRow(f, row, prev, bpp), prev, bpp, n) == row[..n]
  {
    if n > 0 {
      UnfilterFilters(f, row, prev, bpp, n - 1);
      var done, x := row[..n - 1], n - 1;
      var guess: int := Predict(f, Left(row, x, bpp), prev[x], Left(prev, x, bpp));
      assert Left(done, x, bpp) == Left(row, x, bpp);
      Modular(row[x], guess);
      assert row[..n] == done + [row[x]];
    }
  }

  /** ... and gives the only scanline that filters to the bytes read. */
  lemma {:induction false} FilterUnfilters(f: byte, line: seq<byte>, prev: seq<byte>, bpp: nat)
    requires |line| == |prev| && bpp > 0
    ensures FilterRow(f, UnfilterRow(f, line, prev, bpp), prev, bpp) == line
  {
    var row := UnfilterRow(f, line, prev, bpp);
    forall x | 0 <= x < |line|
      ensures FilterRow(f, row, prev, bpp)[x] == line[x]
    {
      RefilteredByte(f, line, prev, bpp, x);
    }
  }

  lemma RefilteredByte(f: byte, line: seq<byte>, prev: seq<byte>, bpp: nat, x: nat)
    requires |line| == |prev| && bpp > 0 && x < |line|
    ensures FilterRow(f, UnfilterRow(f, line, prev, bpp), prev, bpp)[x] == line[x]
  {
    var row := UnfilterRow(f, line, prev, bpp);
    var done := UnfilterTo(f, line, prev, bpp, x);
    UnfilterPrefix(f, line, prev, bpp, x, |line|);
    UnfilterPrefix(f, line, prev, bpp, x + 1, |line|);
    var guess: int := Predict(f, Left(done, x, bpp), prev[x], Left(prev, x, bpp));
    assert Left(row, x, bpp) == Left(done, x, bpp);
    assert row[x] == (line[x] + guess) % 256;
    Modular(line[x], guess);
  }

  lemma Modular(b: byte, guess: byte)
    ensures ((b + guess) % 256 - guess) % 256 == b
    ensures ((b - guess) % 256 + guess) % 256 == b
  {
  }

  lemma {:induction false} UnfilterPrefix(f: byte, line: seq<byte>, prev: seq<byte>, bpp: nat, n: nat, m: nat)
    requires |line| == |prev| && bpp > 0 && n <= m <= |line|
    ensures UnfilterTo(f, line, prev, bpp, n) == UnfilterTo(f, line, prev, bpp, m)[..n]
  {
    if n < m {
      UnfilterPrefix(f, line, prev, bpp, n, m - 1);
    }
  }

  /** The decompressed stream of an image: each row its filter byte, then its
      filtered bytes, the filters chosen row by row. */
  function EncodeRows(rows: seq<seq<byte>>, filters: seq<byte>, prev: seq<byte>, bpp: nat): seq<byte>
    requires |filters| == |rows| && bpp > 0
    requires forall y :: 0 <= y < |rows| ==> |rows[y]| == |prev|
  {
    if rows == [] then []
    else [filters[0]] + FilterRow(filters[0], rows[0], prev, bpp) + EncodeRows(rows[1..], filters[1..], rows[0], bpp)
  }

  /** The stream ends within the scanline at `raw[p]`, but the script does not
      notice: nothing is predicted, and at most one pixel is missing, so that
      every byte to the left exists. */
  predicate CutShort(raw: seq<byte>, p: nat, stride: nat, bpp: nat) {
    p < |raw| < p + 1 + stride <= |raw| + bpp && raw[p] !in {1, 2, 3, 4}
  }

  /** The pixels of `h` scanlines starting at `raw[p]`, or `None` when the
      script runs past the end of the stream. */
  function DecodeRows(raw: seq<byte>, p: nat, h: nat, prev: seq<byte>, bpp: nat): Option<seq<byte>>
    requires bpp > 0
    decreases h
  {
    if h == 0 then Some([])
    else if |raw| < p + 1 + |prev| then
      if h == 1 && CutShort(raw, p, |prev|, bpp) then Some(raw[p + 1..]) else None
    else
      var row := UnfilterRow(raw[p], raw[p + 1..p + 1 + |prev|], prev, bpp);
      Prefixed(row, DecodeRows(raw, p + 1 + |prev|, h - 1, row, bpp))
  }

  function Prefixed(front: seq<byte>, rest: Option<seq<byte>>): Option<seq<byte>> {
    match rest
    case None => None
    case Some(s) => Some(front + s)
  }

  /** Decoding succeeds exactly on complete streams, and on those that lack at
      most one pixel of an unfiltered last scanline: the image is then short. */
  lemma {:induction false} DecodedSize(raw: seq<byte>, p: nat, h: nat, prev: seq<byte>, bpp: nat)
    requires bpp > 0 && p <= |raw|
    ensures h > 0 ==> p + (h - 1) * (1 + |prev|) >= 0
    ensures DecodeRows(raw, p, h, prev, bpp).Some?
            <==> |raw| >= p + h * (1 + |prev|) || (h > 0 && CutShort(raw, p + (h - 1) * (1 + |prev|), |prev|, bpp))
    ensures DecodeRows(raw, p, h, prev, bpp).Some? ==>
              var full, there := h * |prev|, |raw| - p - h;
              |DecodeRows(raw, p, h, prev, bpp).value| == if full <= there then full else there
    decreases h
  {
    hide UnfilterRow;
    if h > 0 {
      Steps(h, |prev|);
      if |raw| >= p + 1 + |prev| {
        DecodedSize(raw, p + 1 + |prev|, h - 1, UnfilterRow(raw[p], raw[p + 1..p + 1 + |prev|], prev, bpp), bpp);
        if h > 1 {
          Steps(h - 1, |prev|);
        }
      } else if h > 1 {
        Steps(h - 1, |prev|);
      }
    }
  }

  lemma CompleteDecodes(raw: seq<byte>, h: nat, prev: seq<byte>, bpp: nat)
    requires bpp > 0 && |raw| == h * (|prev| + 1)
    ensures DecodeRows(raw, 0, h, prev, bpp).Some?
    ensures |DecodeRows(raw, 0, h, prev, bpp).value| == h * |prev|
  {
    hide CutShort;
    DecodedSize(raw, 0, h, prev, bpp);
    assert h * (|prev| + 1) == h * |prev| + h;
  }

  lemma Steps(h: nat, stride: nat)
    requires h > 0
    ensures h * stride == stride + (h - 1) * stride
    ensures h * (1 + stride) == 1 + stride + (h - 1) * (1 + stride)
    ensures (h - 1) * stride >= 0 && (h - 1) * (1 + stride) >= 0
  {
  }

  /** The decoder returns exactly the pixels that were encoded, whatever the
      filters and wherever in the stream the scanlines are. */
  lemma {:induction false} DecodeEncodes(raw: seq<byte>, p: nat, rows: seq<seq<byte>>, filters: seq<byte>,
                                         prev: seq<byte>, bpp: nat)
    requires |filters| == |rows| && bpp > 0
    requires forall y :: 0 <= y < |rows| ==> |rows[y]| == |prev|
    requires p <= |raw| && EncodeRows(rows, filters, prev, bpp) <= raw[p..]
    ensures DecodeRows(raw, p, |rows|, prev, bpp) == Some(Concat(rows))
    decreases |rows|
  {
    hide Predict, UnfilterTo, FilterRow;
    if rows != [] {
      var line := FilterRow(filters[0], rows[0], prev, bpp);
      var tail := EncodeRows(rows[1..], filters[1..], rows[0], bpp);
      EncodedParts(raw, p, filters[0], line, tail);
      UnfilterFilters(filters[0], rows[0], prev, bpp, |prev|);
      assert rows[0][..|prev|] == rows[0];
      DecodeEncodes(raw, p + 1 + |prev|, rows[1..], filters[1..], rows[0], bpp);
    }
  }

  lemma EncodedParts(raw: seq<byte>, p: nat, f: byte, line: seq<byte>, tail: seq<byte>)
    requires p <= |raw| && [f] + line + tail <= raw[p..]
    ensures p + 1 + |line| <= |raw| && raw[p] == f && raw[p + 1..p + 1 + |line|] == line
    ensures tail <= raw[p + 1 + |line|..]
  {
    var whole := [f] + line + tail;
    assert raw[p] == whole[0];
    assert raw[p..][..|whole|] == whole;
    assert raw[p + 1..p + 1 + |line|] == whole[1..1 + |line|];
    assert raw[p + 1 + |line|..][..|tail|] == whole[1 + |line|..];
  }

  /** One scanline, overwritten byte by byte. */
  method UnfilterInPlace(f: byte, line: array<byte>, prev: array<byte>, bpp: nat)
    requires line != prev && line.Length == prev.Length && bpp > 0
    modifies line
    ensures line[..] == UnfilterRow(f, old(line[..]), prev[..], bpp)
  {
    hide UnfilterTo, Paeth;
    ghost var was, above := line[..], prev[..];
    UnfilterNothing(f, was, above, bpp);
    for x := 0 to line.Length
      invariant prev[..] == above
      invariant forall k :: x <= k < line.Length ==> line[k] == was[k]
      invariant line[..x] == UnfilterTo(f, was, above, bpp, x)
    {
      ghost var done := line[..x];
      UnfilterSnoc(f, was, above, bpp, x);
      var a: int := if x >= bpp then line[x - bpp] else 0;
      var b: int := prev[x];
      var c: int := if x >= bpp then prev[x - bpp] else 0;
      assert a == Left(done, x, bpp) && c == Left(above, x, bpp) && b == above[x];
      if f == 1 {
        line[x] := (line[x] + a) % 256;
      } else if f == 2 {
        line[x] := (line[x] + b) % 256;
      } else if f == 3 {
        line[x] := (line[x] + (a + b) / 2) % 256;
      } else if f == 4 {
        line[x] := (line[x] + Paeth(a, b, c)) % 256;
      }
      assert line[x] == (was[x] + Predict(f, a, b, c)) % 256;
      assert line[..x + 1] == done + [line[x]];
    }
    assert line[..line.Length] == line[..];
  }

  function Area(h: nat, stride: nat): nat {
    if h == 0 then 0 else stride + Area(h - 1, stride)
  }

  lemma {:induction false} AreaIs(h: nat, stride: nat)
    ensures Area(h, stride) == h * stride
  {
    if h > 0 {
      AreaIs(h - 1, stride);
      Steps(h, stride);
    }
  }

  /** `out` and the row above the first start as zeros. */
  method Reconstruct(raw: seq<byte>, h: nat, stride: nat, bpp: nat) returns (pixels: Option<seq<byte>>)
    requires bpp > 0
    ensures pixels == DecodeRows(raw, 0, h, Zeros(stride), bpp)
  {
    AreaIs(h, stride);
    var out := new byte[h * stride](_ => 0);
    var prev := new byte[stride](_ => 0);
    assert prev[..] == Zeros(stride);
    pixels := ReadRows(raw, h, prev, bpp, out);
  }

  /** The row loop of `load`: `p` walks the stream, `prev` is the row above. */
  method ReadRows(raw: seq<byte>, h: nat, first: array<byte>, bpp: nat, out: array<byte>)
    returns (pixels: Option<seq<byte>>)
    requires bpp > 0 && out != first && out.Length == Area(h, first.Length)
    modifies out
    ensures pixels == DecodeRows(raw, 0, h, old(first[..]), bpp)
  {
    hide UnfilterRow, DecodeRows, Prefixed, CutShort, Area;
    var p, at, prev, stride := 0, 0, first, first.Length;
    ghost var done, above := [], first[..];
    ghost var pixelsOf := DecodeRows(raw, 0, h, above, bpp);
    NothingRead(pixelsOf);
    for y := 0 to h
      invariant 0 <= p <= |raw| && 0 <= at && prev.Length == |above| == stride && prev != out
      invariant out.Length == at + Area(h - y, stride)
      invariant done == out[..at] && above == prev[..]
      invariant pixelsOf == Prefixed(done, DecodeRows(raw, p, h - y, above, bpp))
    {
      AreaStep(h - y, stride);
      if |raw| - p < 1 + stride {
        StreamEnds(done, raw, p, h - y, above, bpp);
        if p == |raw| {
          return None;
        }
        var whole := ShortLine(raw[p], raw[p + 1..], stride, bpp);
        if !whole || y < h - 1 {
          return None;
        }
        return Some(out[..at] + raw[p + 1..]);
      }
      prev := NextRow(raw, p, prev, bpp, out, at);
      done, above := ReadRow(done, raw, p, h - y, above, bpp);
      p, at := p + 1 + stride, at + stride;
    }
    AllRead(done, raw, p, above, bpp, stride);
    assert done == out[..];
    return Some(out[..]);
  }

  /** The byte loop on a scanline that the stream cut off: whether it gets to the
      end without reading a byte that is not there. */
  method ShortLine(f: byte, line: seq<byte>, stride: nat, bpp: nat) returns (whole: bool)
    requires bpp > 0 && |line| < stride
    ensures whole <==> f !in {1, 2, 3, 4} && stride <= |line| + bpp
  {
    for x := 0 to stride
      invariant f in {1, 2, 3, 4} ==> x <= |line|
      invariant x <= |line| + bpp
    {
      if x >= bpp && x - bpp >= |line| {
        return false;
      }
      if (f == 1 || f == 2 || f == 3 || f == 4) && x >= |line| {
        return false;
      }
    }
    return true;
  }

  lemma AreaStep(h: nat, stride: nat)
    requires h > 0
    ensures Area(h, stride) == stride + Area(h - 1, stride)
  {
  }

  lemma NothingRead(whole: Option<seq<byte>>)
    ensures Prefixed([], whole) == whole
  {
    assert whole.Some? ==> [] + whole.value == whole.value;
  }

  lemma AllRead(done: seq<byte>, raw: seq<byte>, p: nat, prev: seq<byte>, bpp: nat, stride: nat)
    requires bpp > 0
    ensures Prefixed(done, DecodeRows(raw, p, 0, prev, bpp)) == Some(done) && Area(0, stride) == 0
  {
    assert done + [] == done;
  }

  lemma StreamEnds(done: seq<byte>, raw: seq<byte>, p: nat, h: nat, prev: seq<byte>, bpp: nat)
    requires bpp > 0 && h > 0 && p <= |raw| < p + 1 + |prev|
    ensures CutShort(raw, p, |prev|, bpp)
            <==> p < |raw| && raw[p] !in {1, 2, 3, 4} && |prev| <= |raw| - p - 1 + bpp
    ensures Prefixed(done, DecodeRows(raw, p, h, prev, bpp))
            == if h == 1 && CutShort(raw, p, |prev|, bpp) then Some(done + raw[p + 1..]) else None
  {
    hide UnfilterRow;
  }

  /** Reading one row moves it from the rest of the stream to the pixels. */
  lemma ReadRow(done: seq<byte>, raw: seq<byte>, p: nat, h: nat, prev: seq<byte>, bpp: nat)
    returns (more: seq<byte>, row: seq<byte>)
    requires bpp > 0 && h > 0 && p + 1 + |prev| <= |raw|
    ensures row == UnfilterRow(raw[p], raw[p + 1..p + 1 + |prev|], prev, bpp) && more == done + row
    ensures Prefixed(done, DecodeRows(raw, p, h, prev, bpp))
            == Prefixed(more, DecodeRows(raw, p + 1 + |prev|, h - 1, row, bpp))
  {
    row := UnfilterRow(raw[p], raw[p + 1..p + 1 + |prev|], prev, bpp);
    more := done + row;
    var rest := DecodeRows(raw, p + 1 + |prev|, h - 1, row, bpp);
    assert rest.Some? ==> done + (row + rest.value) == more + rest.value;
  }

  /** Row starting at `raw[p]`, reconstructed and written to `out` at `at`. */
  method NextRow(raw: seq<byte>, p: nat, prev: array<byte>, bpp: nat, out: array<byte>, at: nat)
    returns (line: array<byte>)
    requires bpp > 0 && out != prev && p + 1 + prev.Length <= |raw| && at + prev.Length <= out.Length
    modifies out
    ensures fresh(line) && line.Length == prev.Length
    ensures line[..] == UnfilterRow(raw[p], raw[p + 1..p + 1 + prev.Length], old(prev[..]), bpp)
    ensures out[..at + prev.Length] == old(out[..at]) + line[..]
  {
    line := new byte[prev.Length](i requires 0 <= i < prev.Length => raw[p + 1 + i]);
    assert line[..] == raw[p + 1..p + 1 + prev.Length];
    UnfilterInPlace(raw[p], line, prev, bpp);
    CopyRow(out, at, line);
  }

  /** `out[start:start + len(line)] = line`. */
  method CopyRow(out: array<byte>, start: nat, line: array<byte>)
    requires out != line && start + line.Length <= out.Length
    modifies out
    ensures out[..start + line.Length] == old(out[..start]) + line[..]
  {
    for i := 0 to line.Length
      invariant out[..start] == old(out[..start]) && line[..] == old(line[..])
      invariant out[start..start + i] == line[..i]
    {
      out[start + i] := line[i];
      assert out[start..start + i + 1] == out[start..start + i] + [line[i]];
    }
    assert out[..start + line.Length] == out[..start] + out[start..start + line.Length];
  }
}
