/** Regions, scores and limits of the shell scene comparison
    (scripts/compare_shell_scenes.py:40-68 and 111-118), over exact numbers. */
module SceneScores {
  import opened Bytes
  import opened Rounding

  const BAR_HEIGHT: int := 30
  const DOCK_HEIGHT: int := 110
  const TITLE_BAND: int := 52

  datatype Kind = Shell | AppWindow

  datatype Name = Screen | MenuBar | Dock | Desktop | Window | TitleBar | Content

  datatype Box = Box(left: int, top: int, right: int, bottom: int)

  /** The whole image first, then its parts. */
  function Regions(width: int, height: int, kind: Kind): seq<(Name, Box)> {
    if kind == AppWindow then
      var band := if TITLE_BAND < height then TITLE_BAND else height;
      [ (Window, Box(0, 0, width, height)), (TitleBar, Box(0, 0, width, band)), (Content, Box(0, band, width, height)) ]
    else
      [ (Screen, Box(0, 0, width, height)), (MenuBar, Box(0, 0, width, BAR_HEIGHT)),
        (Dock, Box(0, height - DOCK_HEIGHT, width, height)),
        (Desktop, Box(0, BAR_HEIGHT, width, height - DOCK_HEIGHT)) ]
  }

  /** A luminance difference image, row by row. */
  ghost predicate Picture(rows: seq<seq<byte>>, width: nat) {
    forall y :: 0 <= y < |rows| ==> |rows[y]| == width
  }

  predicate Inside(box: Box, width: nat, height: nat) {
    0 <= box.left <= box.right <= width && 0 <= box.top <= box.bottom <= height
  }

  /** The region boxes lie inside the image exactly for windows of any height
      and for screens at least as high as the menu bar and the Dock. */
  lemma RegionsInside(width: nat, height: nat, kind: Kind)
    ensures (forall i :: 0 <= i < |Regions(width, height, kind)| ==>
               Inside(Regions(width, height, kind)[i].1, width, height))
            <==> kind == AppWindow || height >= 140
  {
    var boxes := Regions(width, height, kind);
    if kind == Shell {
      assert Inside(boxes[3].1, width, height) <==> height >= 140;
    }
  }

  /** Which rows the regions have, all at full width: the menu bar the first 30,
      the Dock the last 110, the desktop those between; the title bar the first
      52, as far as there are so many, and the content the others. */
  lemma RowsOfRegions(width: nat, height: nat, kind: Kind, y: nat)
    requires y < height && (kind == AppWindow || height >= 140)
    ensures var regions := Regions(width, height, kind);
            && (forall i :: 0 <= i < |regions| ==> regions[i].1.left == 0 && regions[i].1.right == width)
            && HasRow(regions[0].1, y)
            && match kind
               case Shell =>
                 && |regions| == 4 && regions[0].0 == Screen && regions[1].0 == MenuBar
                 && regions[2].0 == Dock && regions[3].0 == Desktop
                 && (HasRow(regions[1].1, y) <==> y < 30)
                 && (HasRow(regions[2].1, y) <==> y >= height - 110)
                 && (HasRow(regions[3].1, y) <==> 30 <= y < height - 110)
               case AppWindow =>
                 && |regions| == 3 && regions[0].0 == Window && regions[1].0 == TitleBar && regions[2].0 == Content
                 && (HasRow(regions[1].1, y) <==> y < 52)
                 && (HasRow(regions[2].1, y) <==> y >= 52)
  {
  }

  predicate HasRow(box: Box, y: int) {
    box.top <= y < box.bottom
  }

  // ------------------------------------------------------------ histograms

  /** The pixels of a box, row after row. */
  function Crop(rows: seq<seq<byte>>, width: nat, box: Box): seq<byte>
    requires Picture(rows, width) && Inside(box, width, |rows|)
    decreases box.bottom
  {
    if box.top == box.bottom then []
    else Crop(rows, width, box.(bottom := box.bottom - 1)) + rows[box.bottom - 1][box.left..box.right]
  }

  /** A crop has every pixel of the box, in its place. */
  lemma {:induction false} CropAt(rows: seq<seq<byte>>, width: nat, box: Box, x: int, y: int)
    requires Picture(rows, width) && Inside(box, width, |rows|)
    ensures |Crop(rows, width, box)| == (box.bottom - box.top) * (box.right - box.left)
    ensures box.left <= x < box.right && box.top <= y < box.bottom ==>
              var i := (y - box.top) * (box.right - box.left) + (x - box.left);
              0 <= i < |Crop(rows, width, box)| && Crop(rows, width, box)[i] == rows[y][x]
    decreases box.bottom
  {
    if box.top < box.bottom {
      var less, wide, high := box.(bottom := box.bottom - 1), box.right - box.left, box.bottom - box.top;
      CropAt(rows, width, less, x, y);
      assert high * wide == (high - 1) * wide + wide;
    }
  }

  function Count(pixels: seq<byte>, value: int): nat {
    if pixels == [] then 0 else Count(pixels[1..], value) + if pixels[0] == value then 1 else 0
  }

  function Histogram(pixels: seq<byte>): (h: seq<nat>)
    ensures |h| == 256
  {
    seq(256, v => Count(pixels, v))
  }

  /** How many pixels a histogram holds at values from `first` on. */
  function SumFrom(h: seq<nat>, first: nat): nat
    decreases |h| - first
  {
    if first >= |h| then 0 else h[first] + SumFrom(h, first + 1)
  }

  /** The sum of the pixel values a histogram stands for, from value `first` on. */
  function Weighted(h: seq<nat>, first: nat): nat
    decreases |h| - first
  {
    if first >= |h| then 0 else first * h[first] + Weighted(h, first + 1)
  }

  function Sum(pixels: seq<byte>): nat {
    if pixels == [] then 0 else pixels[0] + Sum(pixels[1..])
  }

  function CountAbove(pixels: seq<byte>, threshold: int): nat {
    if pixels == [] then 0 else (if pixels[0] > threshold then 1 else 0) + CountAbove(pixels[1..], threshold)
  }

  lemma {:induction false} SumsOfBump(h: seq<nat>, k: seq<nat>, v: nat, first: nat)
    requires |h| == |k| && v < |h| && k == h[v := h[v] + 1]
    ensures SumFrom(k, first) == SumFrom(h, first) + if v >= first then 1 else 0
    ensures Weighted(k, first) == Weighted(h, first) + if v >= first then v else 0
    decreases |h| - first
  {
    if first < |h| {
      SumsOfBump(h, k, v, first + 1);
      assert v * (h[v] + 1) == v * h[v] + v;
    }
  }

  lemma {:induction false} SumsOfNothing(h: seq<nat>, first: nat)
    requires forall v :: 0 <= v < |h| ==> h[v] == 0
    ensures SumFrom(h, first) == 0 && Weighted(h, first) == 0
    decreases |h| - first
  {
    if first < |h| {
      SumsOfNothing(h, first + 1);
    }
  }

  /** The histogram totals are sums over the pixels themselves. */
  lemma {:induction false} HistogramSums(pixels: seq<byte>, threshold: nat)
    ensures SumFrom(Histogram(pixels), 0) == |pixels|
    ensures Weighted(Histogram(pixels), 0) == Sum(pixels)
    ensures SumFrom(Histogram(pixels), threshold + 1) == CountAbove(pixels, threshold)
  {
    var h := Histogram(pixels);
    if pixels == [] {
      SumsOfNothing(h, 0);
      SumsOfNothing(h, threshold + 1);
    } else {
      HistogramSums(pixels[1..], threshold);
      var before, v := Histogram(pixels[1..]), pixels[0] as nat;
      assert h == before[v := before[v] + 1];
      SumsOfBump(before, h, v, 0);
      SumsOfBump(before, h, v, threshold + 1);
    }
  }

  // ------------------------------------------------------------ scores

  datatype Score = Score(mean: real, changed: real)

  /** A ratio; an empty region counts as one pixel. */
  function Ratio(part: nat, total: nat): real {
    part as real / (if total == 0 then 1 else total) as real
  }

  /** `score` of the pixels of a region. */
  function ScoreOf(pixels: seq<byte>, threshold: nat): Score {
    var h := Histogram(pixels);
    var total := SumFrom(h, 0);
    Score(Round3(Ratio(Weighted(h, 0), total)), Round5(Ratio(SumFrom(h, threshold + 1), total)))
  }

  /** The score is the rounded average and share of the pixels themselves. */
  lemma ScoreIsAverage(pixels: seq<byte>, threshold: nat)
    ensures ScoreOf(pixels, threshold)
            == Score(Round3(Ratio(Sum(pixels), |pixels|)), Round5(Ratio(CountAbove(pixels, threshold), |pixels|)))
  {
    HistogramSums(pixels, threshold);
  }

  /** `y`, in parts of `scale`, is nearest to `part` in `whole`. */
  predicate ShareOf(y: real, part: nat, whole: nat, scale: nat) {
    var k := (y * scale as real).Floor;
    y * scale as real == k as real && -(whole as int) <= 2 * (scale * part - k * whole) <= whole
  }

  lemma RoundedShare(part: nat, whole: nat, scale: nat, y: real)
    requires whole > 0 && RoundedTo(Ratio(part, whole), scale, y)
    ensures ShareOf(y, part, whole, scale)
  {
    var k := (y * scale as real).Floor;
    RatioTimes(part, whole);
    Numerator(part, whole, scale, Ratio(part, whole), k);
  }

  lemma RatioTimes(part: nat, whole: nat)
    requires whole > 0
    ensures Ratio(part, whole) * whole as real == part as real
  {
  }

  lemma Numerator(part: nat, whole: nat, scale: nat, r: real, k: int)
    requires whole > 0 && r * whole as real == part as real && Nearest(r * scale as real, k)
    ensures -(whole as int) <= 2 * (scale * part - k * whole) <= whole
  {
    Regroup(r, scale as real, k as real, whole as real, part as real);
    Products(part, whole, scale, k);
    Halves(r * scale as real - k as real, whole, scale * part - k * whole);
  }

  lemma Halves(d: real, whole: nat, x: int)
    requires -0.5 <= d <= 0.5 && d * whole as real == x as real
    ensures -(whole as int) <= 2 * x <= whole
  {
    var n, q := whole as real, x as real;
    Halved(d, n, q);
    WholeNumbers(whole, x);
  }

  lemma Halved(d: real, n: real, q: real)
    requires -0.5 <= d <= 0.5 && n >= 0.0 && q == d * n
    ensures -0.5 * n <= q <= 0.5 * n
  {
  }

  lemma WholeNumbers(whole: nat, x: int)
    requires -0.5 * whole as real <= x as real <= 0.5 * whole as real
    ensures -(whole as int) <= 2 * x <= whole
  {
    assert (2 * x) as real == 2.0 * x as real;
  }

  lemma Regroup(r: real, scale: real, k: real, n: real, part: real)
    requires r * n == part
    ensures (r * scale - k) * n == part * scale - k * n
  {
    assert r * scale * n == r * n * scale;
  }

  lemma Products(part: nat, whole: nat, scale: nat, k: int)
    ensures part as real * scale as real - k as real * whole as real == (scale * part - k * whole) as real
  {
  }

  /** In whole numbers: the mean is to three places the sum of the pixels over
      their number, and the changed share to five the pixels over the threshold;
      nothing scores nothing. */
  lemma ScoreMeans(pixels: seq<byte>, threshold: nat)
    ensures pixels == [] ==> ScoreOf(pixels, threshold) == Score(0.0, 0.0)
    ensures pixels != [] ==>
              && ShareOf(ScoreOf(pixels, threshold).mean, Sum(pixels), |pixels|, 1000)
              && ShareOf(ScoreOf(pixels, threshold).changed, CountAbove(pixels, threshold), |pixels|, 100_000)
  {
    ScoreIsAverage(pixels, threshold);
    if pixels == [] {
      assert Ratio(0, 0) == 0.0;
    } else {
      hide Ratio, RoundedTo, ShareOf, Round3, Round5;
      RoundedShare(Sum(pixels), |pixels|, 1000, ScoreOf(pixels, threshold).mean);
      RoundedShare(CountAbove(pixels, threshold), |pixels|, 100_000, ScoreOf(pixels, threshold).changed);
    }
  }

  lemma {:induction false} SumsAppend(a: seq<byte>, b: seq<byte>, threshold: int)
    ensures Sum(a + b) == Sum(a) + Sum(b)
    ensures CountAbove(a + b, threshold) == CountAbove(a, threshold) + CountAbove(b, threshold)
  {
    if a == [] {
      assert a + b == b;
    } else {
      assert (a + b)[1..] == a[1..] + b;
      SumsAppend(a[1..], b, threshold);
    }
  }

  /** A merged ratio is between the ratios of its parts. */
  lemma MediantBound(p: nat, n: nat, q: nat, m: nat)
    requires (n == 0 ==> p == 0) && (m == 0 ==> q == 0)
    ensures Min(Ratio(p, n), Ratio(q, m)) <= Ratio(p + q, n + m) <= Max(Ratio(p, n), Ratio(q, m))
  {
    MediantAtMost(p, n, q, m, Max(Ratio(p, n), Ratio(q, m)));
    MediantAtLeast(p, n, q, m, Min(Ratio(p, n), Ratio(q, m)));
  }

  lemma MediantAtMost(p: nat, n: nat, q: nat, m: nat, top: real)
    requires (n == 0 ==> p == 0) && (m == 0 ==> q == 0)
    requires Ratio(p, n) <= top && Ratio(q, m) <= top
    ensures Ratio(p + q, n + m) <= top
  {
    RatioAtMost(p, n, top);
    RatioAtMost(q, m, top);
    RatioAtMost(p + q, n + m, top);
    assert top * n as real + top * m as real == top * (n + m) as real;
  }

  lemma MediantAtLeast(p: nat, n: nat, q: nat, m: nat, low: real)
    requires (n == 0 ==> p == 0) && (m == 0 ==> q == 0)
    requires low <= Ratio(p, n) && low <= Ratio(q, m)
    ensures low <= Ratio(p + q, n + m)
  {
    RatioAtLeast(p, n, low);
    RatioAtLeast(q, m, low);
    RatioAtLeast(p + q, n + m, low);
    assert low * n as real + low * m as real == low * (n + m) as real;
  }

  lemma RatioAtMost(p: nat, n: nat, top: real)
    requires n == 0 ==> p == 0
    ensures Ratio(p, n) <= top <==> p as real <= top * n as real && (n == 0 ==> 0.0 <= top)
  {
    if n > 0 {
      var r := Ratio(p, n);
      assert r * n as real == p as real;
      if r <= top {
        assert (top - r) * n as real >= 0.0;
      } else {
        assert (r - top) * n as real > 0.0;
      }
    }
  }

  lemma RatioAtLeast(p: nat, n: nat, low: real)
    requires n == 0 ==> p == 0
    ensures low <= Ratio(p, n) <==> low * n as real <= p as real && (n == 0 ==> low <= 0.0)
  {
    if n > 0 {
      var r := Ratio(p, n);
      assert r * n as real == p as real;
      if low <= r {
        assert (r - low) * n as real >= 0.0;
      } else {
        assert (low - r) * n as real > 0.0;
      }
    }
  }

  function Min(x: real, y: real): real {
    if x < y then x else y
  }

  function Max(x: real, y: real): real {
    if x < y then y else x
  }

  predicate Between(low: real, x: real, high: real) {
    low <= x <= high
  }

  /** A score between the smaller and the larger of two others. */
  predicate ScoreBetween(a: Score, x: Score, b: Score) {
    && Between(Min(a.mean, b.mean), x.mean, Max(a.mean, b.mean))
    && Between(Min(a.changed, b.changed), x.changed, Max(a.changed, b.changed))
  }

  /** A picture put together from two scores between its parts. */
  lemma ScoreOfJoined(a: seq<byte>, b: seq<byte>, threshold: nat)
    ensures ScoreBetween(ScoreOf(a, threshold), ScoreOf(a + b, threshold), ScoreOf(b, threshold))
  {
    ScoreIsAverage(a, threshold);
    ScoreIsAverage(b, threshold);
    ScoreIsAverage(a + b, threshold);
    SumsAppend(a, b, threshold);
    EmptySums(a, threshold);
    EmptySums(b, threshold);
    hide Ratio, Round3, Round5, ScoreOf, Sum, CountAbove;
    MediantBound(Sum(a), |a|, Sum(b), |b|);
    MediantBound(CountAbove(a, threshold), |a|, CountAbove(b, threshold), |b|);
    RoundsBetween(Ratio(Sum(a), |a|), Ratio(Sum(a + b), |a + b|), Ratio(Sum(b), |b|));
    RoundsBetween(Ratio(CountAbove(a, threshold), |a|), Ratio(CountAbove(a + b, threshold), |a + b|),
                  Ratio(CountAbove(b, threshold), |b|));
  }

  lemma RoundsBetween(x: real, y: real, z: real)
    requires Between(Min(x, z), y, Max(x, z))
    ensures Between(Min(Round3(x), Round3(z)), Round3(y), Max(Round3(x), Round3(z)))
    ensures Between(Min(Round5(x), Round5(z)), Round5(y), Max(Round5(x), Round5(z)))
  {
    hide Round3, Round5, Round6;
    RoundsMonotone(Min(x, z), y);
    RoundsMonotone(y, Max(x, z));
  }

  lemma EmptySums(a: seq<byte>, threshold: int)
    ensures |a| == 0 ==> Sum(a) == 0 && CountAbove(a, threshold) == 0
  {
  }

  /** Cutting a box at a row cuts its pixels. */
  lemma {:induction false} CropSplit(rows: seq<seq<byte>>, width: nat, box: Box, y: int)
    requires Picture(rows, width) && Inside(box, width, |rows|) && box.top <= y <= box.bottom
    ensures Crop(rows, width, box) == Crop(rows, width, box.(bottom := y)) + Crop(rows, width, box.(top := y))
    decreases box.bottom
  {
    if y < box.bottom {
      CropSplit(rows, width, box.(bottom := box.bottom - 1), y);
    }
  }

  // ------------------------------------------------------------ limits

  datatype Problem = MeanOver(name: Name) | ChangedOver(name: Name)

  /** `failures`: one problem for each score over its limit, in order. */
  method Failures(scores: seq<(Name, Score)>, maxMean: real, maxChanged: real) returns (problems: seq<Problem>)
    ensures problems == Problems(scores, maxMean, maxChanged)
  {
    problems := [];
    assert scores[0..] == scores;
    for i := 0 to |scores|
      invariant Problems(scores, maxMean, maxChanged) == problems + Problems(scores[i..], maxMean, maxChanged)
    {
      hide ProblemsOf;
      assert scores[i..][0] == scores[i] && scores[i..][1..] == scores[i + 1..];
      var found := FindProblems(scores[i], maxMean, maxChanged);
      problems := problems + found;
    }
  }

  method FindProblems(score: (Name, Score), maxMean: real, maxChanged: real) returns (found: seq<Problem>)
    ensures found == ProblemsOf(score, maxMean, maxChanged)
  {
    found := [];
    if score.1.mean > maxMean {
      found := found + [MeanOver(score.0)];
    }
    if score.1.changed > maxChanged {
      found := found + [ChangedOver(score.0)];
    }
  }

  function ProblemsOf(score: (Name, Score), maxMean: real, maxChanged: real): seq<Problem> {
    (if score.1.mean > maxMean then [MeanOver(score.0)] else [])
      + (if score.1.changed > maxChanged then [ChangedOver(score.0)] else [])
  }

  function Problems(scores: seq<(Name, Score)>, maxMean: real, maxChanged: real): seq<Problem> {
    if scores == [] then [] else ProblemsOf(scores[0], maxMean, maxChanged) + Problems(scores[1..], maxMean, maxChanged)
  }

  lemma {:induction false} ProblemsExact(scores: seq<(Name, Score)>, maxMean: real, maxChanged: real, name: Name)
    ensures MeanOver(name) in Problems(scores, maxMean, maxChanged)
            <==> exists i :: 0 <= i < |scores| && scores[i].0 == name && scores[i].1.mean > maxMean
    ensures ChangedOver(name) in Problems(scores, maxMean, maxChanged)
            <==> exists i :: 0 <= i < |scores| && scores[i].0 == name && scores[i].1.changed > maxChanged
  {
    if scores != [] {
      ProblemsExact(scores[1..], maxMean, maxChanged, name);
      assert forall i :: 0 < i < |scores| ==> scores[i] == scores[1..][i - 1];
    }
  }

  function RegionScore(rows: seq<seq<byte>>, width: nat, threshold: nat, region: (Name, Box)): Score
    requires Picture(rows, width) && Inside(region.1, width, |rows|)
  {
    ScoreOf(Crop(rows, width, region.1), threshold)
  }

  /** The parts tile the whole: it is over a limit only if some part is, and
      it is if all parts are. */
  lemma WholeNeedsPart(rows: seq<seq<byte>>, width: nat, threshold: nat, kind: Kind, maxMean: real, maxChanged: real)
    requires Picture(rows, width) && (kind == AppWindow || |rows| >= 140)
    ensures var scores := AllScores(rows, width, threshold, kind);
            && (scores[0].1.mean > maxMean ==> exists i :: 0 < i < |scores| && scores[i].1.mean > maxMean)
            && (scores[0].1.changed > maxChanged ==> exists i :: 0 < i < |scores| && scores[i].1.changed > maxChanged)
            && ((forall i :: 0 < i < |scores| ==> scores[i].1.mean > maxMean) ==> scores[0].1.mean > maxMean)
            && ((forall i :: 0 < i < |scores| ==> scores[i].1.changed > maxChanged)
                ==> scores[0].1.changed > maxChanged)
  {
    hide ScoreOf, Crop, Picture;
    var regions, scores := Regions(width, |rows|, kind), AllScores(rows, width, threshold, kind);
    RegionsInside(width, |rows|, kind);
    if kind == AppWindow {
      PartsCover(rows, width, threshold, regions[0].1, regions[1].1.bottom);
      assert scores[1].1 == ScoreOf(Crop(rows, width, regions[1].1), threshold);
      assert scores[2].1 == ScoreOf(Crop(rows, width, regions[2].1), threshold);
    } else {
      PartsCover(rows, width, threshold, regions[0].1, BAR_HEIGHT);
      PartsCover(rows, width, threshold, Box(0, BAR_HEIGHT, width, |rows|), |rows| - DOCK_HEIGHT);
      assert scores[1].1 == ScoreOf(Crop(rows, width, regions[1].1), threshold);
      assert scores[2].1 == ScoreOf(Crop(rows, width, regions[2].1), threshold);
      assert scores[3].1 == ScoreOf(Crop(rows, width, regions[3].1), threshold);
    }
  }

  /** The scores of all regions, as `failures` gets them. */
  function AllScores(rows: seq<seq<byte>>, width: nat, threshold: nat, kind: Kind): (scores: seq<(Name, Score)>)
    requires Picture(rows, width) && (kind == AppWindow || |rows| >= 140)
    ensures |scores| == |Regions(width, |rows|, kind)|
  {
    RegionsInside(width, |rows|, kind);
    var regions := Regions(width, |rows|, kind);
    seq(|regions|, i requires 0 <= i < |regions| => (regions[i].0, RegionScore(rows, width, threshold, regions[i])))
  }

  /** A report never blames the whole image alone, nor all its parts without it. */
  lemma BlamesSomePart(rows: seq<seq<byte>>, width: nat, threshold: nat, kind: Kind, maxMean: real, maxChanged: real)
    requires Picture(rows, width) && (kind == AppWindow || |rows| >= 140)
    ensures var problems := Problems(AllScores(rows, width, threshold, kind), maxMean, maxChanged);
            var regions := Regions(width, |rows|, kind);
            && (MeanOver(regions[0].0) in problems ==>
                exists i :: 0 < i < |regions| && MeanOver(regions[i].0) in problems)
            && (ChangedOver(regions[0].0) in problems ==>
                exists i :: 0 < i < |regions| && ChangedOver(regions[i].0) in problems)
            && ((forall i :: 0 < i < |regions| ==> MeanOver(regions[i].0) in problems)
                ==> MeanOver(regions[0].0) in problems)
            && ((forall i :: 0 < i < |regions| ==> ChangedOver(regions[i].0) in problems)
                ==> ChangedOver(regions[0].0) in problems)
  {
    hide RegionScore, Problems, Picture;
    var regions, scores := Regions(width, |rows|, kind), AllScores(rows, width, threshold, kind);
    WholeNeedsPart(rows, width, threshold, kind, maxMean, maxChanged);
    forall i | 0 <= i < |regions|
      ensures MeanOver(regions[i].0) in Problems(scores, maxMean, maxChanged) <==> scores[i].1.mean > maxMean
      ensures ChangedOver(regions[i].0) in Problems(scores, maxMean, maxChanged) <==> scores[i].1.changed > maxChanged
    {
      ProblemsExact(scores, maxMean, maxChanged, regions[i].0);
    }
  }

  lemma PartsCover(rows: seq<seq<byte>>, width: nat, threshold: nat, box: Box, y: int)
    requires Picture(rows, width) && Inside(box, width, |rows|) && box.top <= y <= box.bottom
    ensures ScoreBetween(ScoreOf(Crop(rows, width, box.(bottom := y)), threshold),
                         ScoreOf(Crop(rows, width, box), threshold),
                         ScoreOf(Crop(rows, width, box.(top := y)), threshold))
  {
    hide ScoreOf, ScoreBetween;
    CropSplit(rows, width, box, y);
    ScoreOfJoined(Crop(rows, width, box.(bottom := y)), Crop(rows, width, box.(top := y)), threshold);
  }
}
