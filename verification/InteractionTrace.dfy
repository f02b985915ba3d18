/** The release verdict on a 60-second interaction trace
    (scripts/analyze-interaction-trace.py:37-145), over exact numbers. */
module InteractionTrace {
  import opened Wrappers
  import opened Rounding
  import opened Sorting
  import FrameTiming

  const MIN_INTERACTIONS: nat := 20
  const WINDOW_NS: int := 60_000_000_000

  datatype Interaction = Interaction(id: string, input: int, visible: int)

  datatype Frame = Frame(at: int, duration: int, missed: bool)

  datatype Document = Document(
    format: int, refresh: int, start: int, end: int, interactions: seq<Interaction>, frames: seq<Frame>)

  datatype TraceError =
    | Format | Refresh | Bounds | Window | TooFewInteractions | TooFewFrames | BadInteraction | BadFrame | NotSpanning

  datatype Report = Report(
    expected: nat, unreported: nat, inputP95: real, frameP95: real, missedPercent: real,
    shownInput: real, shownFrame: real, shownMissed: real, within: bool)

  /** Output slots the window has, rounded up. */
  function ExpectedFrames(doc: Document): int {
    ((doc.end - doc.start) * doc.refresh + 999_999_999) / 1_000_000_000
  }

  /** 99% of them, rounded up. */
  function RequiredFrames(doc: Document): int {
    (ExpectedFrames(doc) * 99 + 99) / 100
  }

  predicate TimesOk(doc: Document, s: Interaction) {
    doc.start <= s.input <= s.visible <= doc.end
  }

  predicate InteractionOk(doc: Document, s: Interaction) {
    0 < |s.id| <= 80 && s.input >= 0 && s.visible >= 0 && TimesOk(doc, s)
  }

  /** Identifiers are short, present and all different; times are in order
      inside the window. */
  predicate InteractionsOk(doc: Document) {
    && (forall i :: 0 <= i < |doc.interactions| ==> InteractionOk(doc, doc.interactions[i]))
    && (forall i, j :: 0 <= i < j < |doc.interactions| ==> doc.interactions[i].id != doc.interactions[j].id)
  }

  predicate FrameOk(doc: Document, f: Frame) {
    f.at >= 0 && doc.start <= f.at <= doc.end && f.duration >= 1
  }

  /** Frames are inside the window, each later than all before it. */
  predicate FramesOk(doc: Document) {
    && (forall i :: 0 <= i < |doc.frames| ==> FrameOk(doc, doc.frames[i]))
    && (forall i, j :: 0 <= i < j < |doc.frames| ==> doc.frames[i].at < doc.frames[j].at)
  }

  /** The first and last frame are within two frame periods of the window. */
  predicate Spans(doc: Document)
    requires doc.frames != []
  {
    && doc.frames[0].at * doc.refresh <= doc.start * doc.refresh + 2_000_000_000
    && doc.frames[|doc.frames| - 1].at * doc.refresh >= doc.end * doc.refresh - 2_000_000_000
  }

  function Missed(frames: seq<Frame>): (m: nat)
    ensures m <= |frames|
  {
    if frames == [] then 0 else Missed(frames[..|frames| - 1]) + if frames[|frames| - 1].missed then 1 else 0
  }

  function Unreported(expected: nat, frames: seq<Frame>): nat {
    if |frames| < expected then expected - |frames| else 0
  }

  function Slots(expected: nat, frames: seq<Frame>): nat {
    if |frames| < expected then expected else |frames|
  }

  function MissedPercent(expected: nat, frames: seq<Frame>): real
    requires expected > 0
  {
    Percent(Missed(frames) + Unreported(expected, frames), Slots(expected, frames))
  }

  function Percent(part: nat, whole: nat): (percent: real)
    requires whole > 0
    ensures percent * whole as real == 100.0 * part as real
  {
    part as real * 100.0 / whole as real
  }

  function Latencies(interactions: seq<Interaction>): (ms: seq<real>)
    ensures |ms| == |interactions|
  {
    seq(|interactions|, i requires 0 <= i < |interactions| =>
      (interactions[i].visible - interactions[i].input) as real / 1_000_000.0)
  }

  function FrameMs(frames: seq<Frame>): (ms: seq<real>)
    ensures |ms| == |frames|
  {
    seq(|frames|, i requires 0 <= i < |frames| => frames[i].duration as real / 1_000_000.0)
  }

  /** `nearest_rank`. */
  function NearestRank(values: seq<real>, percentile: real): real
    requires values != [] && 0.0 < percentile <= 1.0
  {
    hide FrameTiming.Need;
    Sorted(values)[Ceil(FrameTiming.Need(|values|, percentile)) - 1]
  }

  function Budget(refresh: int): real {
    if refresh == 60 then 16.0 else 8.0
  }

  function Summary(doc: Document): Report
    requires ExpectedFrames(doc) > 0 && doc.interactions != [] && doc.frames != []
  {
    var expected := ExpectedFrames(doc);
    var input, frame := NearestRank(Latencies(doc.interactions), 0.95), NearestRank(FrameMs(doc.frames), 0.95);
    var missed := MissedPercent(expected, doc.frames);
    Report(expected, Unreported(expected, doc.frames), input, frame, missed,
           Round3(input), Round3(frame), Round3(missed),
           input <= 50.0 && frame <= Budget(doc.refresh) && missed <= 1.0)
  }

  /** The first check a document fails, in the script's order. */
  function Refusal(doc: Document): Option<TraceError> {
    if doc.format != 1 then Some(Format)
    else if doc.refresh != 60 && doc.refresh != 120 then Some(Refresh)
    else if doc.start < 0 || doc.end < 0 then Some(Bounds)
    else if doc.end - doc.start < WINDOW_NS then Some(Window)
    else if |doc.interactions| < MIN_INTERACTIONS then Some(TooFewInteractions)
    else if |doc.frames| < RequiredFrames(doc) then Some(TooFewFrames)
    else if !InteractionsOk(doc) then Some(BadInteraction)
    else if !FramesOk(doc) then Some(BadFrame)
    else if doc.frames == [] || !Spans(doc) then Some(NotSpanning)
    else None
  }

  /** The slots of the window are the fewest that cover it, and the frames
      required the fewest that are 99 in a hundred of them. */
  lemma SlotsOfWindow(doc: Document)
    ensures var slots, needed := ExpectedFrames(doc), RequiredFrames(doc);
            && slots * 1_000_000_000 >= (doc.end - doc.start) * doc.refresh > (slots - 1) * 1_000_000_000
            && 100 * needed >= 99 * slots > 100 * (needed - 1)
  {
  }

  lemma EnoughFrames(doc: Document)
    requires doc.refresh == 60 || doc.refresh == 120
    requires doc.end - doc.start >= 60_000_000_000
    ensures doc.refresh == 60 ==> ExpectedFrames(doc) >= 3600 && RequiredFrames(doc) >= 3564
    ensures doc.refresh == 120 ==> ExpectedFrames(doc) >= 7200 && RequiredFrames(doc) >= 7128
  {
  }

  /** A trace is accepted exactly when it meets every condition on the document:
      format, rate, window, counts, identifiers, times, and the ends covered. */
  lemma AcceptedMeans(doc: Document)
    ensures Refusal(doc).None? <==>
              && doc.format == 1 && (doc.refresh == 60 || doc.refresh == 120)
              && doc.start >= 0 && doc.end - doc.start >= 60_000_000_000
              && |doc.interactions| >= 20 && doc.frames != []
              && 100 * |doc.frames| >= 99 * ExpectedFrames(doc)
              && (forall i :: 0 <= i < |doc.interactions| ==>
                    var s := doc.interactions[i];
                    1 <= |s.id| <= 80 && doc.start <= s.input <= s.visible <= doc.end)
              && (forall i, j :: 0 <= i < j < |doc.interactions| ==> doc.interactions[i].id != doc.interactions[j].id)
              && (forall i :: 0 <= i < |doc.frames| ==>
                    doc.start <= doc.frames[i].at <= doc.end && doc.frames[i].duration >= 1)
              && (forall i, j :: 0 <= i < j < |doc.frames| ==> doc.frames[i].at < doc.frames[j].at)
              && (doc.frames[0].at - doc.start) * doc.refresh <= 2_000_000_000
              && (doc.end - doc.frames[|doc.frames| - 1].at) * doc.refresh <= 2_000_000_000
  {
    SlotsOfWindow(doc);
    hide ExpectedFrames, RequiredFrames;
    if doc.refresh == 60 || doc.refresh == 120 {
      assert 100 * |doc.frames| >= 99 * ExpectedFrames(doc) <==> |doc.frames| >= RequiredFrames(doc);
      assert doc.frames != [] ==> (Spans(doc) <==>
        && (doc.frames[0].at - doc.start) * doc.refresh <= 2_000_000_000
        && (doc.end - doc.frames[|doc.frames| - 1].at) * doc.refresh <= 2_000_000_000);
    }
  }

  /** `analyze`: seen identifiers and the previous timestamp are enough to
      check that all are different and all increase. */
  method Analyze(doc: Document) returns (r: Result<Report, TraceError>)
    ensures Refusal(doc).Some? ==> r == Err(Refusal(doc).value)
    ensures Refusal(doc).None? ==>
              && ExpectedFrames(doc) > 0 && doc.interactions != [] && doc.frames != []
              && r == Ok(Summary(doc))
  {
    if doc.format != 1 {
      return Err(Format);
    }
    if doc.refresh != 60 && doc.refresh != 120 {
      return Err(Refresh);
    }
    if doc.start < 0 || doc.end < 0 {
      return Err(Bounds);
    }
    if doc.end - doc.start < WINDOW_NS {
      return Err(Window);
    }
    EnoughFrames(doc);
    hide ExpectedFrames, RequiredFrames, InteractionsOk, FramesOk, Spans, NearestRank, RoundHalfEven;
    if |doc.interactions| < MIN_INTERACTIONS {
      return Err(TooFewInteractions);
    }
    if |doc.frames| < RequiredFrames(doc) {
      return Err(TooFewFrames);
    }
    var latencies := ReadInteractions(doc);
    if latencies.None? {
      return Err(BadInteraction);
    }
    var frames := ReadFrames(doc);
    if frames.None? {
      return Err(BadFrame);
    }
    var (frameMs, missed) := frames.value;
    if !Spans(doc) {
      return Err(NotSpanning);
    }
    var expected := ExpectedFrames(doc);
    var input, frame := NearestRank(latencies.value, 0.95), NearestRank(frameMs, 0.95);
    var unreported := if expected - |frameMs| > 0 then expected - |frameMs| else 0;
    var slots := if expected > |frameMs| then expected else |frameMs|;
    var percent := Percent(missed + unreported, slots);
    r := Ok(Report(expected, unreported, input, frame, percent, Round3(input), Round3(frame), Round3(percent),
                   input <= 50.0 && frame <= Budget(doc.refresh) && percent <= 1.0));
  }

  method ReadInteractions(doc: Document) returns (r: Option<seq<real>>)
    ensures r == if InteractionsOk(doc) then Some(Latencies(doc.interactions)) else None
  {
    var seen: set<string> := {};
    var ms: seq<real> := [];
    for i := 0 to |doc.interactions|
      invariant seen == set k | 0 <= k < i :: doc.interactions[k].id
      invariant ms == Latencies(doc.interactions[..i])
      invariant forall k :: 0 <= k < i ==> InteractionOk(doc, doc.interactions[k])
      invariant forall j, k :: 0 <= j < k < i ==> doc.interactions[j].id != doc.interactions[k].id
    {
      var s := doc.interactions[i];
      if |s.id| == 0 || |s.id| > 80 || s.id in seen {
        return None;
      }
      seen := seen + {s.id};
      if s.input < 0 || s.visible < 0 || !TimesOk(doc, s) {
        return None;
      }
      ms := ms + [(s.visible - s.input) as real / 1_000_000.0];
    }
    assert doc.interactions[..|doc.interactions|] == doc.interactions;
    r := Some(ms);
  }

  method ReadFrames(doc: Document) returns (r: Option<(seq<real>, nat)>)
    ensures r == if FramesOk(doc) then Some((FrameMs(doc.frames), Missed(doc.frames))) else None
  {
    var ms: seq<real> := [];
    var missed := 0;
    var previous: Option<int> := None;
    for i := 0 to |doc.frames|
      invariant ms == FrameMs(doc.frames[..i]) && missed == Missed(doc.frames[..i])
      invariant previous == if i == 0 then None else Some(doc.frames[i - 1].at)
      invariant forall k :: 0 <= k < i ==> FrameOk(doc, doc.frames[k])
      invariant forall j, k :: 0 <= j < k < i ==> doc.frames[j].at < doc.frames[k].at
    {
      var f := doc.frames[i];
      if f.at < 0 || !(doc.start <= f.at <= doc.end) {
        return None;
      }
      if previous.Some? && f.at <= previous.value {
        return None;
      }
      previous := Some(f.at);
      if f.duration < 1 {
        return None;
      }
      ms := ms + [f.duration as real / 1_000_000.0];
      assert doc.frames[..i + 1][..i] == doc.frames[..i];
      missed := missed + if f.missed then 1 else 0;
    }
    assert doc.frames[..|doc.frames|] == doc.frames;
    r := Some((ms, missed));
  }

  // ------------------------------------------------------------ what the verdict means

  /** Both scripts rank the same sample. */
  lemma SameRank(values: seq<real>, pct: real)
    requires values != [] && 0.0 < pct <= 1.0
    ensures FrameTiming.Percentile(values, pct) == Some(NearestRank(values, pct))
  {
  }

  lemma PercentAtMostOne(expected: nat, frames: seq<Frame>)
    requires expected > 0
    ensures MissedPercent(expected, frames) <= 1.0
            <==> 100 * (Missed(frames) + Unreported(expected, frames)) <= Slots(expected, frames)
    ensures 0.0 <= MissedPercent(expected, frames) <= 100.0
  {
    var bad, slots := (Missed(frames) + Unreported(expected, frames)) as real, Slots(expected, frames) as real;
    Quotient(bad * 100.0, slots, 1.0);
    Quotient(bad * 100.0, slots, 100.0);
  }

  lemma Quotient(a: real, b: real, q: real)
    requires b > 0.0
    ensures a / b <= q <==> a <= q * b
    ensures a >= 0.0 ==> a / b >= 0.0
  {
    var x := a / b;
    assert x * b == a;
    if x <= q {
      assert (q - x) * b >= 0.0;
    } else {
      assert (x - q) * b > 0.0;
    }
  }

  /** A verdict within limits means, in the document's own nanoseconds: 95 in a
      hundred interactions take at most 50 ms, 95 in a hundred frames at most
      16 ms at 60 Hz or 8 ms at 120 Hz, and missed and omitted slots together are
      at most one in a hundred. */
  lemma WithinMeans(doc: Document)
    requires Refusal(doc).None?
    ensures ExpectedFrames(doc) > 0 && doc.interactions != [] && doc.frames != []
    ensures var slots, reported := ExpectedFrames(doc), |doc.frames|;
            Summary(doc).within
            <==> && 100 * Quick(doc.interactions, 50_000_000) >= 95 * |doc.interactions|
                 && 100 * Short(doc.frames, if doc.refresh == 60 then 16_000_000 else 8_000_000) >= 95 * reported
                 && 100 * (Missed(doc.frames) + if reported < slots then slots - reported else 0)
                    <= if reported < slots then slots else reported
  {
    EnoughFrames(doc);
    hide ExpectedFrames, RequiredFrames, InteractionsOk, FramesOk, Spans, MissedPercent, NearestRank, FrameTiming.Share,
         Latencies, FrameMs;
    PercentAtMostOne(ExpectedFrames(doc), doc.frames);
    RankIsShare(Latencies(doc.interactions), 50.0);
    RankIsShare(FrameMs(doc.frames), Budget(doc.refresh));
    CountIsShare(Latencies(doc.interactions), 50.0);
    CountIsShare(FrameMs(doc.frames), Budget(doc.refresh));
    QuickCounted(doc.interactions, 50);
    ShortCounted(doc.frames, if doc.refresh == 60 then 16 else 8);
  }

  /** How many interactions took at most so long. */
  function Quick(interactions: seq<Interaction>, ns: int): (count: nat)
    ensures count <= |interactions|
  {
    if interactions == [] then 0
    else (if interactions[0].visible - interactions[0].input <= ns then 1 else 0) + Quick(interactions[1..], ns)
  }

  /** How many frames took at most so long. */
  function Short(frames: seq<Frame>, ns: int): (count: nat)
    ensures count <= |frames|
  {
    if frames == [] then 0 else (if frames[0].duration <= ns then 1 else 0) + Short(frames[1..], ns)
  }

  lemma {:induction false} QuickCounted(interactions: seq<Interaction>, ms: int)
    ensures CountAtMost(Latencies(interactions), ms as real) == Quick(interactions, ms * 1_000_000)
  {
    if interactions != [] {
      assert Latencies(interactions)[1..] == Latencies(interactions[1..]);
      QuickCounted(interactions[1..], ms);
    }
  }

  lemma {:induction false} ShortCounted(frames: seq<Frame>, ms: int)
    ensures CountAtMost(FrameMs(frames), ms as real) == Short(frames, ms * 1_000_000)
  {
    if frames != [] {
      assert FrameMs(frames)[1..] == FrameMs(frames[1..]);
      ShortCounted(frames[1..], ms);
    }
  }

  lemma CountIsShare(values: seq<real>, limit: real)
    requires values != []
    ensures FrameTiming.Share(values, limit).value >= 0.95 <==> 100 * CountAtMost(values, limit) >= 95 * |values|
  {
    FrameTiming.ShareAtLeast(CountAtMost(values, limit), |values|, 0.95);
  }

  lemma RankIsShare(values: seq<real>, limit: real)
    requires values != []
    ensures NearestRank(values, 0.95) <= limit <==> FrameTiming.Share(values, limit).value >= 0.95
  {
    SameRank(values, 0.95);
    FrameTiming.PercentileIsShare(values, 0.95, limit);
  }

  /** A sparse trace cannot pass: the frames reported and not missed are at
      least 99 in a hundred of all that the output shows in the window. */
  lemma SparseCannotPass(doc: Document)
    requires Refusal(doc).None?
    requires ExpectedFrames(doc) > 0 && doc.interactions != [] && doc.frames != [] && Summary(doc).within
    ensures 100 * 1_000_000_000 * (|doc.frames| - Missed(doc.frames)) >= 99 * ((doc.end - doc.start) * doc.refresh)
  {
    SlotsOfWindow(doc);
    hide Refusal, ExpectedFrames, NearestRank, MissedPercent;
    PercentAtMostOne(ExpectedFrames(doc), doc.frames);
    assert 100 * (|doc.frames| - Missed(doc.frames)) >= 99 * ExpectedFrames(doc);
  }

  /** The published metrics never contradict a passing verdict. */
  lemma ShownWithinLimits(doc: Document)
    requires ExpectedFrames(doc) > 0 && doc.interactions != [] && doc.frames != [] && Summary(doc).within
    ensures Summary(doc).shownInput <= 50.0 && Summary(doc).shownMissed <= 1.0
    ensures Summary(doc).shownFrame <= if doc.refresh == 60 then 16.0 else 8.0
    ensures var r := Summary(doc);
            && RoundedTo(r.inputP95, 1000, r.shownInput) && RoundedTo(r.frameP95, 1000, r.shownFrame)
            && RoundedTo(r.missedPercent, 1000, r.shownMissed)
  {
    hide ExpectedFrames, NearestRank, MissedPercent, Round5, Round6;
    var r := Summary(doc);
    RoundsMonotone(r.inputP95, 50.0);
    RoundsMonotone(r.frameP95, Budget(doc.refresh));
    RoundsMonotone(r.missedPercent, 1.0);
  }

  function Without(frames: seq<Frame>, k: nat): (rest: seq<Frame>)
    requires k < |frames|
    ensures |rest| == |frames| - 1
  {
    frames[..k] + frames[k + 1..]
  }

  lemma {:induction false} MissedWithout(frames: seq<Frame>, k: nat)
    requires k < |frames|
    ensures Missed(Without(frames, k)) == Missed(frames) - if frames[k].missed then 1 else 0
  {
    var n := |frames|;
    if k == n - 1 {
      assert Without(frames, k) == frames[..n - 1];
    } else {
      MissedWithout(frames[..n - 1], k);
      var rest := Without(frames, k);
      assert rest[..n - 2] == Without(frames[..n - 1], k) && rest[n - 2] == frames[n - 1];
    }
  }

  /** Leaving a frame out lowers the missed percentage exactly when the trace
      has more frames than slots and the frame was a missed one among frames
      not all missed; so a trace with no more frames than slots gains nothing. */
  lemma OmittingLowersOnlyExcess(expected: nat, frames: seq<Frame>, k: nat)
    requires expected > 0 && k < |frames|
    ensures MissedPercent(expected, Without(frames, k)) < MissedPercent(expected, frames)
            <==> |frames| > expected && frames[k].missed && Missed(frames) < |frames|
  {
    hide Missed, Without, Percent, Smaller;
    var rest := Without(frames, k);
    MissedWithout(frames, k);
    var bad, slots := Missed(frames) + Unreported(expected, frames), Slots(expected, frames);
    var badRest, slotsRest := Missed(rest) + Unreported(expected, rest), Slots(expected, rest);
    FractionLess(badRest, slotsRest, bad, slots);
    if |frames| <= expected {
      NotSmaller(badRest, bad, slots);
    } else {
      OneOut(bad, slots);
    }
  }

  // A trace that passes only without one of its frames.

  /** Frames 16.66 ms apart, the first `missed` of them missed. */
  function Steady(n: nat, missed: nat): (frames: seq<Frame>)
    ensures |frames| == n
  {
    seq(n, i requires 0 <= i < n => Frame(i * 16_660_000, 1, i < missed))
  }

  function Identifier(i: nat): (id: string)
    ensures |id| == i + 1
  {
    seq(i + 1, _ => 'i')
  }

  /** One frame more than the 3600 slots of a minute, and 37 of them missed. */
  function Crowded(): Document {
    Document(1, 60, 0, WINDOW_NS, seq(20, i requires 0 <= i < 20 => Interaction(Identifier(i), 0, 0)), Steady(3601, 37))
  }

  lemma {:induction false} MissedSteady(n: nat, missed: nat)
    ensures Missed(Steady(n, missed)) == if n <= missed then n else missed
  {
    if n > 0 {
      assert Steady(n, missed)[..n - 1] == Steady(n - 1, missed);
      MissedSteady(n - 1, missed);
    }
  }

  lemma CrowdedRefusal(doc: Document)
    requires doc == Crowded() || doc == Crowded().(frames := Without(Crowded().frames, 1))
    ensures Refusal(doc).None? && ExpectedFrames(doc) == 3600 && doc.refresh == 60
    ensures forall s :: s in doc.interactions ==> s.input == s.visible
    ensures forall f :: f in doc.frames ==> f.duration == 1
  {
    hide FramesOk, InteractionsOk, Spans, Steady, Without;
    CrowdedFrames(doc);
    CrowdedInteractions(doc);
    assert |doc.interactions| == 20 && |doc.frames| >= 3600 && RequiredFrames(doc) == 3564;
  }

  lemma CrowdedFrames(doc: Document)
    requires doc == Crowded() || doc == Crowded().(frames := Without(Crowded().frames, 1))
    ensures |doc.frames| >= 3600 && FramesOk(doc) && Spans(doc)
    ensures forall f :: f in doc.frames ==> f.duration == 1
  {
    var frames := Steady(3601, 37);
    if doc != Crowded() {
      assert forall i :: 0 <= i < 3600 ==> doc.frames[i] == frames[if i < 1 then i else i + 1];
    }
  }

  lemma CrowdedInteractions(doc: Document)
    requires doc == Crowded() || doc == Crowded().(frames := Without(Crowded().frames, 1))
    ensures |doc.interactions| == 20 && InteractionsOk(doc)
    ensures forall s :: s in doc.interactions ==> s.input == s.visible
  {
    hide Without, Steady;
    assert forall i :: 0 <= i < 20 ==> |doc.interactions[i].id| == i + 1;
  }

  lemma {:induction false} AllQuick(interactions: seq<Interaction>)
    requires forall s :: s in interactions ==> s.input == s.visible
    ensures Quick(interactions, 50_000_000) == |interactions|
  {
    if interactions != [] {
      AllQuick(interactions[1..]);
    }
  }

  lemma {:induction false} AllShort(frames: seq<Frame>)
    requires forall f :: f in frames ==> f.duration == 1
    ensures Short(frames, 16_000_000) == |frames|
  {
    if frames != [] {
      AllShort(frames[1..]);
    }
  }

  /** With samples all this small, the verdict is the missed share. */
  lemma VerdictIsMissed(doc: Document)
    requires Refusal(doc).None? && doc.refresh == 60
    requires forall s :: s in doc.interactions ==> s.input == s.visible
    requires forall f :: f in doc.frames ==> f.duration == 1
    ensures ExpectedFrames(doc) > 0 && doc.interactions != [] && doc.frames != []
    ensures var slots, reported := ExpectedFrames(doc), |doc.frames|;
            Summary(doc).within <==> 100 * (Missed(doc.frames) + if reported < slots then slots - reported else 0)
                                     <= if reported < slots then slots else reported
  {
    hide Missed, ExpectedFrames, Refusal, Summary, Quick, Short;
    WithinMeans(doc);
    AllQuick(doc.interactions);
    AllShort(doc.frames);
  }

  lemma CrowdedMissed()
    ensures |Crowded().frames| == 3601 && Missed(Crowded().frames) == 37
    ensures Missed(Without(Crowded().frames, 1)) == 36
  {
    hide Missed, Without;
    MissedSteady(3601, 37);
    MissedWithout(Crowded().frames, 1);
  }

  /** Omission can turn the verdict: this accepted trace is over its limits, and
      without one missed frame it is accepted and within them. */
  lemma OmissionCanPass()
    ensures var doc := Crowded(); var less := doc.(frames := Without(doc.frames, 1));
            && Refusal(doc).None? && Refusal(less).None?
            && ExpectedFrames(doc) > 0 && doc.interactions != [] && doc.frames != []
            && ExpectedFrames(less) > 0 && less.interactions != [] && less.frames != []
            && !Summary(doc).within && Summary(less).within
  {
    hide Refusal, Summary, ExpectedFrames, Missed, Crowded, Without;
    CrowdedMissed();
    var doc := Crowded();
    var less := doc.(frames := Without(doc.frames, 1));
    CrowdedRefusal(doc);
    CrowdedRefusal(less);
    VerdictIsMissed(doc);
    VerdictIsMissed(less);
  }

  /** `a / b < c / d`, multiplied out. */
  predicate Smaller(a: int, b: int, c: int, d: int) {
    a * d < c * b
  }

  lemma NotSmaller(a: nat, c: nat, d: nat)
    requires a >= c
    ensures !Smaller(a, d, c, d)
  {
  }

  lemma OneOut(c: nat, d: nat)
    ensures Smaller(c - 1, d - 1, c, d) <==> c < d
    ensures !Smaller(c, d - 1, c, d)
  {
    assert (c - 1) * d == c * d - d && c * (d - 1) == c * d - c;
  }

  lemma FractionLess(a: nat, b: nat, c: nat, d: nat)
    requires b > 0 && d > 0
    ensures Percent(a, b) < Percent(c, d) <==> Smaller(a, b, c, d)
  {
    var x, y := a as real * 100.0 / b as real, c as real * 100.0 / d as real;
    Quotient(c as real * 100.0, d as real, x);
    assert x * b as real == a as real * 100.0;
    assert x * d as real * b as real == a as real * 100.0 * d as real;
    if c as real * 100.0 <= x * d as real {
      assert c as real * 100.0 * b as real <= x * d as real * b as real;
    } else {
      assert c as real * 100.0 * b as real > x * d as real * b as real;
    }
    assert (a * d) as real == a as real * d as real && (c * b) as real == c as real * b as real;
  }
}
