/** Frame durations, input latencies and budget figures of the frame-timing
    run (scripts/behavior/run_frame_timing.py:109-188), over exact numbers. */
module FrameTiming {
  import opened Wrappers
  import opened Rounding
  import opened Sorting

  datatype Kind = DrawStart | Present | DrawSkip | Input | OtherEvent

  datatype Event = Event(kind: Kind, micros: int)

  function Ms(micros: int): real {
    micros as real / 1000.0
  }

  // ------------------------------------------------------------ frame durations

  /** The events that open, close or discard a frame. */
  predicate Relevant(e: Event) {
    e.kind == DrawStart || e.kind == Present || e.kind == DrawSkip
  }

  /** The latest relevant event before index `n`. */
  function Latest(events: seq<Event>, n: nat): (j: Option<nat>)
    requires n <= |events|
    ensures j.Some? ==> j.value < n && Relevant(events[j.value])
    ensures j.Some? ==> forall k :: j.value < k < n ==> !Relevant(events[k])
    ensures j.None? ==> forall k :: 0 <= k < n ==> !Relevant(events[k])
  {
    if n == 0 then None else if Relevant(events[n - 1]) then Some(n - 1) else Latest(events, n - 1)
  }

  /** The event at `i` presents the frame begun at `j`. */
  ghost predicate Frame(events: seq<Event>, j: int, i: int) {
    && 0 <= j < i < |events|
    && events[j].kind == DrawStart && events[i].kind == Present
    && forall k :: j < k < i ==> !Relevant(events[k])
  }

  /** The frames among the first `n` events: index of start and of present. */
  function Frames(events: seq<Event>, n: nat): (frames: seq<(nat, nat)>)
    requires n <= |events|
    ensures forall f :: f in frames ==> f.0 < f.1 < n
  {
    if n == 0 then [] else
    var before := Frames(events, n - 1);
    var last := Latest(events, n - 1);
    if events[n - 1].kind == Present && last.Some? && events[last.value].kind == DrawStart
    then before + [(last.value, n - 1)]
    else before
  }

  function Duration(events: seq<Event>, frame: (nat, nat)): real
    requires frame.0 < frame.1 < |events|
  {
    Ms(events[frame.1].micros - events[frame.0].micros)
  }

  /** `ms` milliseconds from the start of the frame to its present. */
  predicate Lasts(events: seq<Event>, frame: (nat, nat), ms: real)
    requires frame.0 < frame.1 < |events|
  {
    ms * 1000.0 == (events[frame.1].micros - events[frame.0].micros) as real
  }

  function Durations(events: seq<Event>, frames: seq<(nat, nat)>): (out: seq<real>)
    requires forall f :: f in frames ==> f.0 < f.1 < |events|
    ensures |out| == |frames|
    ensures forall k :: 0 <= k < |frames| ==> out[k] == Duration(events, frames[k])
    ensures forall k :: 0 <= k < |frames| ==> Lasts(events, frames[k], out[k])
  {
    seq(|frames|, k requires 0 <= k < |frames| => Duration(events, frames[k]))
  }

  lemma DurationsSnoc(events: seq<Event>, frames: seq<(nat, nat)>, f: (nat, nat))
    requires forall g :: g in frames ==> g.0 < g.1 < |events|
    requires f.0 < f.1 < |events|
    ensures forall g :: g in frames + [f] ==> g.0 < g.1 < |events|
    ensures Durations(events, frames + [f]) == Durations(events, frames) + [Duration(events, f)]
  {
    assert (frames + [f])[..|frames|] == frames;
  }

  /** `frame_durations_ms`. */
  method FrameDurations(events: seq<Event>) returns (out: seq<real>)
    ensures out == Durations(events, Frames(events, |events|))
    ensures var frames := Frames(events, |events|);
            |out| == |frames| && forall k :: 0 <= k < |frames| ==> Lasts(events, frames[k], out[k])
  {
    hide Durations, Ms;
    DurationsOfNone(events);
    out := [];
    var pendingStart: Option<int> := None;
    for i := 0 to |events|
      invariant out == Durations(events, Frames(events, i))
      invariant pendingStart == match Latest(events, i)
                                case None => None
                                case Some(j) => if events[j].kind == DrawStart then Some(events[j].micros) else None
    {
      var e := events[i];
      if e.kind == DrawStart {
        pendingStart := Some(e.micros);
      } else if e.kind == Present && pendingStart.Some? {
        DurationsSnoc(events, Frames(events, i), (Latest(events, i).value, i));
        out := out + [Ms(e.micros - pendingStart.value)];
        pendingStart := None;
      } else if e.kind == DrawSkip {
        pendingStart := None;
      }
    }
  }

  lemma DurationsOfNone(events: seq<Event>)
    ensures Durations(events, []) == []
  {
  }

  /** One duration for each present whose latest earlier relevant event is a
      draw start, and for nothing else. */
  lemma {:induction false} FramesExact(events: seq<Event>, n: nat, j: nat, i: nat)
    requires n <= |events|
    ensures (j, i) in Frames(events, n) <==> i < n && Frame(events, j, i)
  {
    if n > 0 {
      FramesExact(events, n - 1, j, i);
      var before, all := Frames(events, n - 1), Frames(events, n);
      if all != before {
        assert all[|before|] == (Latest(events, n - 1).value, n - 1);
        assert forall f :: f in all <==> f in before || f == all[|before|];
      }
    }
  }

  /** Each frame begins after the one before it was presented. */
  lemma {:induction false} FramesDisjoint(events: seq<Event>, n: nat, a: nat, b: nat)
    requires n <= |events| && a < b < |Frames(events, n)|
    ensures Frames(events, n)[a].1 < Frames(events, n)[b].0
  {
    var before, frames := Frames(events, n - 1), Frames(events, n);
    if b < |before| {
      FramesDisjoint(events, n - 1, a, b);
    } else {
      assert before[a] in before;
      FramesExact(events, n - 1, before[a].0, before[a].1);
      assert Relevant(events[before[a].1]) && frames[b].0 == Latest(events, n - 1).value;
    }
  }

  /** The sum of the first `n` numbers. */
  function SumTo(s: seq<real>, n: nat): real
    requires n <= |s|
  {
    if n == 0 then 0.0 else SumTo(s, n - 1) + s[n - 1]
  }

  ghost predicate Ordered(events: seq<Event>) {
    forall i, j :: 0 <= i < j < |events| ==> events[i].micros <= events[j].micros
  }

  /** Frames one after the other, none starting before the last was presented. */
  ghost predicate Chain(events: seq<Event>, frames: seq<(nat, nat)>) {
    && (forall f :: f in frames ==> f.0 < f.1 < |events|)
    && (forall a, b :: 0 <= a < b < |frames| ==> frames[a].1 <= frames[b].0)
  }

  lemma {:induction false} ChainFits(events: seq<Event>, frames: seq<(nat, nat)>, n: nat)
    requires Ordered(events) && Chain(events, frames) && 0 < n <= |frames|
    ensures var total := SumTo(Durations(events, frames), n);
            0.0 <= total * 1000.0 <= (events[frames[n - 1].1].micros - events[0].micros) as real
  {
    hide Durations, Duration;
    var durations, i := Durations(events, frames), n - 1;
    assert Lasts(events, frames[i], durations[i]);
    var start, end := events[frames[i].0].micros, events[frames[i].1].micros;
    assert events[0].micros <= start <= end;
    if n > 1 {
      ChainFits(events, frames, n - 1);
      assert events[frames[n - 2].1].micros <= start;
    }
  }

  /** With ordered timestamps no time is counted twice: the frame durations add
      up to at most the time from the first event to the last present. */
  lemma DurationsFitSpan(events: seq<Event>, n: nat)
    requires n <= |events| && Ordered(events)
    ensures var frames := Frames(events, n); var total := SumTo(Durations(events, frames), |frames|);
            0.0 <= total * 1000.0
            <= if frames == [] then 0.0 else (events[frames[|frames| - 1].1].micros - events[0].micros) as real
  {
    hide Durations, Frames, Ordered;
    var frames := Frames(events, n);
    if frames != [] {
      forall a, b | 0 <= a < b < |frames|
        ensures frames[a].1 <= frames[b].0
      {
        FramesDisjoint(events, n, a, b);
      }
      ChainFits(events, frames, |frames|);
    }
  }

  // ------------------------------------------------------------ input latencies

  function Presents(events: seq<Event>): seq<real> {
    if events == [] then []
    else (if events[0].kind == Present then [events[0].micros as real] else []) + Presents(events[1..])
  }

  lemma {:induction false} PresentsAre(events: seq<Event>, t: real)
    ensures t in Presents(events)
            <==> exists k :: 0 <= k < |events| && events[k].kind == Present && events[k].micros as real == t
  {
    if events != [] {
      PresentsAre(events[1..], t);
      assert forall k :: 0 < k < |events| ==> events[k] == events[1..][k - 1];
      assert events[0].kind == Present ==> events[0].micros as real in Presents(events);
      assert forall x :: x in Presents(events[1..]) ==> x in Presents(events);
    }
  }

  /** `t` is the time of the first present at or after the input. */
  ghost predicate FirstAfter(events: seq<Event>, input: int, t: real) {
    && (exists k :: 0 <= k < |events| && events[k].kind == Present && events[k].micros as real == t)
    && t >= input as real
    && forall k :: 0 <= k < |events| && events[k].kind == Present && events[k].micros >= input ==>
         events[k].micros as real >= t
  }

  /** The inputs that some present follows. */
  ghost predicate Answered(events: seq<Event>, e: Event) {
    e.kind == Input && exists k :: 0 <= k < |events| && events[k].kind == Present && events[k].micros >= e.micros
  }

  /** `out` has, in order, one latency for each answered input among the first
      `n` events, and it is the time to the first present. */
  ghost predicate LatenciesOf(events: seq<Event>, n: nat, out: seq<real>)
    requires n <= |events|
  {
    if n == 0 then out == []
    else if Answered(events, events[n - 1]) then
      && out != []
      && FirstAfter(events, events[n - 1].micros, out[|out| - 1] * 1000.0 + events[n - 1].micros as real)
      && LatenciesOf(events, n - 1, out[..|out| - 1])
    else LatenciesOf(events, n - 1, out)
  }

  /** `input_to_present_latencies_ms`: bisecting the sorted presents gives what
      a plain scan for the earliest present would. */
  method InputLatencies(events: seq<Event>) returns (out: seq<real>)
    ensures LatenciesOf(events, |events|, out)
  {
    var presents := Sorted(Presents(events));
    out := [];
    for i := 0 to |events|
      invariant LatenciesOf(events, i, out)
    {
      var e := events[i];
      if e.kind == Input {
        var index := BisectLeft(presents, e.micros as real);
        BisectFindsFirst(events, e.micros, presents, index);
        if index < |presents| {
          var latency := (presents[index] - e.micros as real) / 1000.0;
          assert latency * 1000.0 + e.micros as real == presents[index];
          assert (out + [latency])[..|out|] == out;
          out := out + [latency];
        }
      }
    }
  }

  lemma BisectFindsFirst(events: seq<Event>, input: int, presents: seq<real>, index: nat)
    requires presents == Sorted(Presents(events)) && index <= |presents|
    requires forall i :: 0 <= i < index ==> presents[i] < input as real
    requires forall i :: index <= i < |presents| ==> presents[i] >= input as real
    ensures index < |presents| ==> FirstAfter(events, input, presents[index])
    ensures index < |presents|
            <==> exists k :: 0 <= k < |events| && events[k].kind == Present && events[k].micros >= input
  {
    hide Sorted;
    if index < |presents| {
      SortedMembers(Presents(events), presents[index]);
      PresentsAre(events, presents[index]);
    }
    forall k | 0 <= k < |events| && events[k].kind == Present && events[k].micros >= input
      ensures index < |presents| && events[k].micros as real >= presents[index]
    {
      PresentsAre(events, events[k].micros as real);
      SortedMembers(Presents(events), events[k].micros as real);
      var p :| 0 <= p < |presents| && presents[p] == events[k].micros as real;
    }
  }

  /** The events leave no choice of latencies. */
  lemma {:induction false} LatenciesOnce(events: seq<Event>, n: nat, a: seq<real>, b: seq<real>)
    requires n <= |events| && LatenciesOf(events, n, a) && LatenciesOf(events, n, b)
    ensures a == b
  {
    if n > 0 {
      var e := events[n - 1];
      if Answered(events, e) {
        var x, y := a[|a| - 1], b[|b| - 1];
        LatenciesOnce(events, n - 1, a[..|a| - 1], b[..|b| - 1]);
        FirstOnce(events, e.micros, x * 1000.0 + e.micros as real, y * 1000.0 + e.micros as real);
        assert a == a[..|a| - 1] + [x] && b == b[..|b| - 1] + [y];
      } else {
        LatenciesOnce(events, n - 1, a, b);
      }
    }
  }

  lemma FirstOnce(events: seq<Event>, input: int, t: real, u: real)
    requires FirstAfter(events, input, t) && FirstAfter(events, input, u)
    ensures t == u
  {
    var k :| 0 <= k < |events| && events[k].kind == Present && events[k].micros as real == t;
    var l :| 0 <= l < |events| && events[l].kind == Present && events[l].micros as real == u;
    assert events[k].micros >= input && events[l].micros >= input;
  }

  // ------------------------------------------------------------ budgets

  /** `percentile_nearest_rank`; a percentile above 1 has no rank. */
  function Percentile(values: seq<real>, pct: real): Option<real>
    requires pct <= 1.0
  {
    if values == [] then None else
    var rank := Rank(|values|, pct);
    Some(Sorted(values)[rank - 1])
  }

  /** How many of `n` samples a share of `pct` is. */
  function Need(n: nat, pct: real): (x: real)
    ensures pct > 0.0 && n > 0 ==> x > 0.0
    ensures pct <= 1.0 ==> x <= n as real
    ensures n == 0 ==> x == 0.0
  {
    pct * n as real
  }

  function Rank(n: nat, pct: real): (rank: nat)
    requires n > 0 && pct <= 1.0
    ensures 1 <= rank <= n
  {
    var c := Ceil(Need(n, pct));
    if c > 1 then c else 1
  }

  /** `share_within_budget`. */
  function Share(values: seq<real>, budget: real): Option<real> {
    if values == [] then None else Some(CountAtMost(values, budget) as real / |values| as real)
  }

  lemma ShareAtLeast(count: nat, n: nat, p: real)
    requires n > 0
    ensures count as real / n as real >= p <==> count as real >= Need(n, p)
    ensures count as real / n as real > 0.0 <==> count > 0
  {
    var q := count as real / n as real;
    assert q * n as real == count as real;
    if q >= p {
      assert (q - p) * n as real >= 0.0;
    } else {
      assert (p - q) * n as real > 0.0;
    }
  }

  /** The percentile is within a budget exactly when at least that share of the
      samples is (and, for a percentile of zero or less, at least one). */
  lemma PercentileIsShare(values: seq<real>, pct: real, budget: real)
    requires values != [] && pct <= 1.0
    ensures Percentile(values, pct).value <= budget
            <==> Share(values, budget).value >= pct && Share(values, budget).value > 0.0
  {
    PercentileIsCount(values, pct, budget);
    ShareAtLeast(CountAtMost(values, budget), |values|, pct);
  }

  lemma PercentileIsCount(values: seq<real>, pct: real, budget: real)
    requires values != [] && pct <= 1.0
    ensures Percentile(values, pct).value <= budget
            <==> CountAtMost(values, budget) as real >= Need(|values|, pct) && CountAtMost(values, budget) > 0
  {
    hide Need;
    CountSorted(values, budget);
    SortedPrefix(Sorted(values), budget, Rank(|values|, pct) - 1);
  }

  // ------------------------------------------------------------ merging scenarios

  function Flatten(all: seq<seq<real>>): seq<real> {
    if all == [] then [] else all[0] + Flatten(all[1..])
  }

  function AllDurations(all: seq<seq<Event>>): seq<seq<real>> {
    if all == [] then [] else [Durations(all[0], Frames(all[0], |all[0]|))] + AllDurations(all[1..])
  }

  /** `merge_events`: the latencies (`parts`, scenario by scenario) and the
      durations of every scenario, one after the other. */
  method MergeEvents(all: seq<seq<Event>>)
    returns (latencies: seq<real>, durations: seq<real>, ghost parts: seq<seq<real>>)
    ensures |parts| == |all| && forall i :: 0 <= i < |all| ==> LatenciesOf(all[i], |all[i]|, parts[i])
    ensures latencies == Flatten(parts)
    ensures durations == Flatten(AllDurations(all))
    ensures |AllDurations(all)| == |all|
    ensures forall i :: 0 <= i < |all| ==> AllDurations(all)[i] == Durations(all[i], Frames(all[i], |all[i]|))
  {
    AllDurationsAre(all);
    hide Durations, Frames, LatenciesOf;
    latencies, durations, parts := [], [], [];
    assert all[0..] == all;
    for i := 0 to |all|
      invariant |parts| == i && forall k :: 0 <= k < i ==> LatenciesOf(all[k], |all[k]|, parts[k])
      invariant latencies == Flatten(parts)
      invariant Flatten(AllDurations(all)) == durations + Flatten(AllDurations(all[i..]))
    {
      var later := InputLatencies(all[i]);
      FlattenSnoc(parts, later);
      latencies, parts := latencies + later, parts + [later];
      var more := FrameDurations(all[i]);
      assert all[i..][0] == all[i] && all[i..][1..] == all[i + 1..];
      MergeStep(all[i..]);
      durations := durations + more;
    }
  }

  lemma {:induction false} FlattenSnoc(parts: seq<seq<real>>, part: seq<real>)
    ensures Flatten(parts + [part]) == Flatten(parts) + part
  {
    if parts == [] {
      assert [] + [part] == [part] && [part][1..] == [];
    } else {
      assert (parts + [part])[1..] == parts[1..] + [part];
      FlattenSnoc(parts[1..], part);
    }
  }

  lemma {:induction false} AllDurationsAre(all: seq<seq<Event>>)
    ensures |AllDurations(all)| == |all|
    ensures forall i :: 0 <= i < |all| ==> AllDurations(all)[i] == Durations(all[i], Frames(all[i], |all[i]|))
  {
    hide Durations, Frames;
    if all != [] {
      AllDurationsAre(all[1..]);
      assert AllDurations(all)[1..] == AllDurations(all[1..]);
    }
  }

  lemma MergeStep(all: seq<seq<Event>>)
    requires all != []
    ensures Flatten(AllDurations(all)) == Durations(all[0], Frames(all[0], |all[0]|)) + Flatten(AllDurations(all[1..]))
  {
    assert AllDurations(all)[1..] == AllDurations(all[1..]);
  }

  /** Merging neither hides nor invents a failure: if every scenario with
      samples meets a budget the merged figure does, and if every one misses
      it so does the merged figure. */
  lemma MergedVerdict(all: seq<seq<real>>, pct: real, budget: real)
    requires 0.0 < pct <= 1.0 && Flatten(all) != []
    ensures (forall i :: 0 <= i < |all| && all[i] != [] ==> Percentile(all[i], pct).value <= budget)
              ==> Percentile(Flatten(all), pct).value <= budget
    ensures (forall i :: 0 <= i < |all| && all[i] != [] ==> Percentile(all[i], pct).value > budget)
              ==> Percentile(Flatten(all), pct).value > budget
  {
    MergedCount(all, pct, budget);
    PercentileIsCount(Flatten(all), pct, budget);
  }

  lemma {:induction false} MergedCount(all: seq<seq<real>>, pct: real, budget: real)
    requires 0.0 < pct <= 1.0
    ensures var merged := Flatten(all); var count := CountAtMost(merged, budget) as real;
            && ((forall i :: 0 <= i < |all| && all[i] != [] ==> Percentile(all[i], pct).value <= budget)
                ==> count >= Need(|merged|, pct))
            && ((forall i :: 0 <= i < |all| && all[i] != [] ==> Percentile(all[i], pct).value > budget)
                ==> count <= Need(|merged|, pct) && (merged != [] ==> count < Need(|merged|, pct)))
  {
    hide Need, Percentile, CountAtMost;
    if all == [] {
      CountNone(budget);
    } else {
      var a, rest := all[0], all[1..];
      MergedCount(rest, pct, budget);
      assert forall i :: 0 <= i < |rest| ==> rest[i] == all[i + 1];
      if a != [] {
        CountAppend(a, Flatten(rest), budget);
        NeedAdds(|a|, |Flatten(rest)|, pct);
        PercentileIsCount(a, pct, budget);
      } else {
        assert Flatten(all) == Flatten(rest);
      }
    }
  }

  lemma CountNone(budget: real)
    ensures CountAtMost([], budget) == 0
  {
  }

  lemma NeedAdds(n: nat, m: nat, pct: real)
    ensures Need(n + m, pct) == Need(n, pct) + Need(m, pct)
  {
  }
}
