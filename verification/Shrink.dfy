/** The bounded search for a short failing prefix of an action log
    (scripts/behavior/monkey.py:986-1035). */
module Shrink {
  import opened Wrappers

  /** One relaunch: whether replaying a prefix of that length, in the run of
      that number, shows the finding again. Runs of one length may disagree. */
  type Oracle = (nat, nat) -> bool

  /** The interval the loop ends with; `left` attempts remain. */
  function Search(reproduces: Oracle, run: nat, lo: nat, hi: nat, left: nat): (r: (nat, nat))
    requires lo <= hi
    ensures lo <= r.0 <= r.1 <= hi
    ensures lo < hi ==> r.0 < r.1
    decreases left
  {
    if hi - lo <= 1 || left == 0 then (lo, hi) else
    var mid := (lo + hi) / 2;
    if reproduces(run, mid) then Search(reproduces, run + 1, lo, mid, left - 1)
    else Search(reproduces, run + 1, mid, hi, left - 1)
  }

  /** The prefix length `shrink` returns, `None` if the whole log does not
      reproduce. A runaway-CPU finding is first tried with no action at all. */
  function Shortened(reproduces: Oracle, failingCount: nat, runawayCpu: bool, maxAttempts: nat): Option<nat> {
    if !reproduces(0, failingCount) then None
    else if runawayCpu && reproduces(1, 0) then Some(0)
    else Some(Search(reproduces, if runawayCpu then 2 else 1, 0, failingCount, maxAttempts).1)
  }

  /** `shrink`. */
  method ShrinkLog(reproduces: Oracle, failingCount: nat, runawayCpu: bool, maxAttempts: nat) returns (r: Option<nat>)
    ensures r == Shortened(reproduces, failingCount, runawayCpu, maxAttempts)
  {
    if !reproduces(0, failingCount) {
      return None;
    }
    var run := 1;
    if runawayCpu {
      if reproduces(1, 0) {
        return Some(0);
      }
      run := 2;
    }
    var lo, hi := 0, failingCount;
    var attempts := 0;
    while hi - lo > 1 && attempts < maxAttempts
      invariant 0 <= lo <= hi && attempts <= maxAttempts
      invariant Search(reproduces, if runawayCpu then 2 else 1, 0, failingCount, maxAttempts)
             == Search(reproduces, run, lo, hi, maxAttempts - attempts)
    {
      var mid := (lo + hi) / 2;
      if reproduces(run, mid) {
        hi := mid;
      } else {
        lo := mid;
      }
      run, attempts := run + 1, attempts + 1;
    }
    return Some(hi);
  }

  // ------------------------------------------------------------ unreliable findings

  /** Some run before number `runs` tried a prefix of this length and saw the
      finding (`seen`) or did not. */
  ghost predicate Observed(reproduces: Oracle, runs: nat, length: nat, seen: bool) {
    exists k :: 0 <= k < runs && reproduces(k, length) == seen
  }

  /** Even if findings come and go, the upper end was seen to reproduce, and
      the lower end (unless nothing) was seen not to. */
  lemma {:induction false} SearchObserved(reproduces: Oracle, run: nat, lo: nat, hi: nat, left: nat)
    requires lo <= hi && Observed(reproduces, run, hi, true)
    requires lo == 0 || Observed(reproduces, run, lo, false)
    ensures var r := Search(reproduces, run, lo, hi, left);
            && Observed(reproduces, run + left, r.1, true)
            && (r.0 == 0 || Observed(reproduces, run + left, r.0, false))
    decreases left
  {
    hide Observed;
    if hi - lo <= 1 || left == 0 {
      MoreRuns(reproduces, run, run + left, hi, true);
      if lo > 0 {
        MoreRuns(reproduces, run, run + left, lo, false);
      }
    } else {
      var mid := (lo + hi) / 2;
      var seen := reproduces(run, mid);
      JustRun(reproduces, run, mid);
      if seen {
        if lo > 0 {
          MoreRuns(reproduces, run, run + 1, lo, false);
        }
        SearchObserved(reproduces, run + 1, lo, mid, left - 1);
      } else {
        MoreRuns(reproduces, run, run + 1, hi, true);
        SearchObserved(reproduces, run + 1, mid, hi, left - 1);
      }
    }
  }

  lemma JustRun(reproduces: Oracle, run: nat, length: nat)
    ensures Observed(reproduces, run + 1, length, reproduces(run, length))
  {
  }

  lemma MoreRuns(reproduces: Oracle, runs: nat, more: nat, length: nat, seen: bool)
    requires runs <= more && Observed(reproduces, runs, length, seen)
    ensures Observed(reproduces, more, length, seen)
  {
    var k :| 0 <= k < runs && reproduces(k, length) == seen;
    assert reproduces(k, length) == seen;
  }

  /** Whatever is returned was seen to reproduce in one of at most
      `maxAttempts + 2` runs. */
  lemma ReturnedWasSeen(reproduces: Oracle, failingCount: nat, runawayCpu: bool, maxAttempts: nat)
    ensures var r := Shortened(reproduces, failingCount, runawayCpu, maxAttempts);
            r.Some? ==> r.value <= failingCount && Observed(reproduces, maxAttempts + 2, r.value, true)
  {
    var r := Shortened(reproduces, failingCount, runawayCpu, maxAttempts);
    if r.Some? {
      var run := if runawayCpu then 2 else 1;
      if runawayCpu && reproduces(1, 0) {
        assert Observed(reproduces, 2, 0, true);
        MoreRuns(reproduces, 2, maxAttempts + 2, 0, true);
      } else {
        assert reproduces(0, failingCount) == true;
        assert Observed(reproduces, run, failingCount, true);
        SearchObserved(reproduces, run, 0, failingCount, maxAttempts);
        MoreRuns(reproduces, run + maxAttempts, maxAttempts + 2, r.value, true);
      }
    }
  }

  // ------------------------------------------------------------ how close it gets

  function Pow2(n: nat): (p: nat)
    ensures p > 0
  {
    if n == 0 then 1 else 2 * Pow2(n - 1)
  }

  /** `length` halved `times` times, rounding up. */
  function HalvedUp(length: nat, times: nat): nat {
    if times == 0 then length else HalvedUp((length + 1) / 2, times - 1)
  }

  lemma {:induction false} HalvedUpFits(length: nat, times: nat, bound: nat)
    requires length <= bound * Pow2(times)
    ensures HalvedUp(length, times) <= bound
  {
    if times > 0 {
      var half := bound * Pow2(times - 1);
      assert bound * Pow2(times) == 2 * half;
      HalvedUpFits((length + 1) / 2, times - 1, bound);
    }
  }

  lemma {:induction false} HalvedUpGrows(a: nat, b: nat, times: nat)
    requires a <= b
    ensures HalvedUp(a, times) <= HalvedUp(b, times)
  {
    if times > 0 {
      HalvedUpGrows((a + 1) / 2, (b + 1) / 2, times - 1);
    }
  }

  lemma {:induction false} SearchGap(reproduces: Oracle, run: nat, lo: nat, hi: nat, left: nat)
    requires lo <= hi
    ensures var r := Search(reproduces, run, lo, hi, left);
            r.1 - r.0 <= 1 || r.1 - r.0 <= HalvedUp(hi - lo, left)
    decreases left
  {
    if hi - lo > 1 && left > 0 {
      var mid := (lo + hi) / 2;
      if reproduces(run, mid) {
        SearchGap(reproduces, run + 1, lo, mid, left - 1);
        HalvedUpGrows(mid - lo, (hi - lo + 1) / 2, left - 1);
      } else {
        SearchGap(reproduces, run + 1, mid, hi, left - 1);
        HalvedUpGrows(hi - mid, (hi - lo + 1) / 2, left - 1);
      }
    }
  }

  /** No action at all, or a prefix that does not fail. */
  predicate LowerEnd(fails: nat -> bool, lo: nat) {
    lo == 0 || !fails(lo)
  }

  /** With findings that depend on the prefix alone: the result reproduces, the
      lower end does not, and they are at most `ceil(failingCount / 2^maxAttempts)`
      apart (or adjacent), stated for any bound the division meets. */
  lemma FixedOracleGap(reproduces: Oracle, fails: nat -> bool, failingCount: nat, runawayCpu: bool,
                       maxAttempts: nat, bound: nat)
    requires forall k, c :: reproduces(k, c) == fails(c)
    requires failingCount >= 1 && bound >= 1 && failingCount <= bound * Pow2(maxAttempts)
    requires fails(failingCount) && !(runawayCpu && fails(0))
    ensures var r := Shortened(reproduces, failingCount, runawayCpu, maxAttempts);
            && r.Some? && 1 <= r.value <= failingCount && fails(r.value)
            && exists lo: nat :: LowerEnd(fails, lo) && lo < r.value <= lo + bound
  {
    var run := if runawayCpu then 2 else 1;
    var (lo, hi) := Search(reproduces, run, 0, failingCount, maxAttempts);
    assert reproduces(0, failingCount) == true;
    SearchObserved(reproduces, run, 0, failingCount, maxAttempts);
    SearchGap(reproduces, run, 0, failingCount, maxAttempts);
    HalvedUpFits(failingCount, maxAttempts, bound);
    hide Search, HalvedUp;
    assert fails(hi) by {
      var k :| 0 <= k < run + maxAttempts && reproduces(k, hi) == true;
    }
    if lo > 0 {
      var k :| 0 <= k < run + maxAttempts && reproduces(k, lo) == false;
    }
    assert LowerEnd(fails, lo) && lo < hi <= lo + bound;
  }

  /** Up to 16384 actions, with the default 14 attempts, the result is minimal
      by one action, with no assumption on how findings depend on the prefix. */
  lemma OneMinimal(reproduces: Oracle, fails: nat -> bool, failingCount: nat, runawayCpu: bool)
    requires forall k, c :: reproduces(k, c) == fails(c)
    requires 1 <= failingCount <= 16384
    ensures var r := Shortened(reproduces, failingCount, runawayCpu, 14);
            && (r.None? <==> !fails(failingCount))
            && (r == Some(0) <==> runawayCpu && fails(failingCount) && fails(0))
            && (r.Some? ==> r.value <= failingCount && fails(r.value))
            && (r.Some? && r.value > 1 ==> !fails(r.value - 1))
  {
    hide Search, Pow2;
    TwoTo14();
    assert reproduces(0, failingCount) == fails(failingCount) && reproduces(1, 0) == fails(0);
    if fails(failingCount) && !(runawayCpu && fails(0)) {
      FixedOracleGap(reproduces, fails, failingCount, runawayCpu, 14, 1);
    }
  }

  lemma TwoTo14()
    ensures Pow2(14) == 16384
  {
    assert Pow2(4) == 16 && Pow2(8) == 256;
    assert Pow2(11) == 2048;
  }

  /** If longer prefixes of a failing one always fail too, the result is the
      shortest failing prefix. */
  lemma MonotoneShortest(reproduces: Oracle, fails: nat -> bool, failingCount: nat, runawayCpu: bool, c: nat)
    requires forall k, n :: reproduces(k, n) == fails(n)
    requires forall m, n :: 0 <= m <= n && fails(m) ==> fails(n)
    requires 1 <= failingCount <= 16384
    ensures var r := Shortened(reproduces, failingCount, runawayCpu, 14);
            r.Some? && 1 <= c < r.value ==> !fails(c)
  {
    OneMinimal(reproduces, fails, failingCount, runawayCpu);
  }

  // ------------------------------------------------------------ exactly when it is shortest

  /** Halving towards `c`, every midpoint at or above `c` fails. */
  predicate Guides(fails: nat -> bool, c: nat, lo: nat, hi: nat, left: nat)
    requires lo <= hi
    decreases left
  {
    if hi - lo <= 1 || left == 0 then true else
    var mid := (lo + hi) / 2;
    if mid >= c then fails(mid) && Guides(fails, c, lo, mid, left - 1)
    else Guides(fails, c, mid, hi, left - 1)
  }

  /** Halving towards `c` gets there before the attempts run out. */
  predicate Lands(c: nat, lo: nat, hi: nat, left: nat)
    requires lo <= hi
    decreases left
  {
    if hi - lo <= 1 || left == 0 then hi == c else
    var mid := (lo + hi) / 2;
    if mid >= c then Lands(c, lo, mid, left - 1) else Lands(c, mid, hi, left - 1)
  }

  lemma {:induction false} LandsInTime(c: nat, lo: nat, hi: nat, left: nat)
    requires lo < c <= hi && hi - lo <= Pow2(left)
    ensures Lands(c, lo, hi, left)
    decreases left
  {
    if hi - lo > 1 && left > 0 {
      var mid := (lo + hi) / 2;
      if mid >= c {
        LandsInTime(c, lo, mid, left - 1);
      } else {
        LandsInTime(c, mid, hi, left - 1);
      }
    }
  }

  lemma {:induction false} SearchGuided(reproduces: Oracle, fails: nat -> bool, run: nat, c: nat,
                                        lo: nat, hi: nat, left: nat)
    requires forall k, n :: reproduces(k, n) == fails(n)
    requires lo < c <= hi && fails(c) && forall m :: lo < m < c ==> !fails(m)
    ensures Search(reproduces, run, lo, hi, left).1 == c
            <==> Guides(fails, c, lo, hi, left) && Lands(c, lo, hi, left)
    decreases left
  {
    if hi - lo > 1 && left > 0 {
      var mid := (lo + hi) / 2;
      if mid < c {
        SearchGuided(reproduces, fails, run + 1, c, mid, hi, left - 1);
      } else if fails(mid) {
        SearchGuided(reproduces, fails, run + 1, c, lo, mid, left - 1);
      } else {
        assert Search(reproduces, run, lo, hi, left) == Search(reproduces, run + 1, mid, hi, left - 1);
      }
    }
  }

  /** The shortest failing prefix is the result exactly when every longer prefix
      that halving towards it tries fails too, and there are attempts enough. */
  lemma ShortestExactly(reproduces: Oracle, fails: nat -> bool, failingCount: nat, runawayCpu: bool,
                        maxAttempts: nat, c: nat)
    requires forall k, n :: reproduces(k, n) == fails(n)
    requires fails(failingCount) && !(runawayCpu && fails(0))
    requires 1 <= c <= failingCount && fails(c) && forall m :: 1 <= m < c ==> !fails(m)
    ensures Shortened(reproduces, failingCount, runawayCpu, maxAttempts) == Some(c)
            <==> Guides(fails, c, 0, failingCount, maxAttempts) && Lands(c, 0, failingCount, maxAttempts)
    ensures failingCount <= Pow2(maxAttempts) ==> Lands(c, 0, failingCount, maxAttempts)
  {
    assert reproduces(0, failingCount) == fails(failingCount) && reproduces(1, 0) == fails(0);
    SearchGuided(reproduces, fails, if runawayCpu then 2 else 1, c, 0, failingCount, maxAttempts);
    if failingCount <= Pow2(maxAttempts) {
      LandsInTime(c, 0, failingCount, maxAttempts);
    }
  }

  // ------------------------------------------------------------ one replay

  /** What a check of the application comes back with. */
  datatype Check = Healthy | Found(kind: Kind) | Raised

  datatype Kind = Crash | Hang | ErrorDialog | StuckWindow | RunawayCpu

  /** A relaunched application that behaves the same in every replay: the
      health check after each action, the one after the last action of a
      prefix, and the idle CPU check that may follow it. */
  datatype Behaviour = Behaviour(after: nat -> Check, last: nat -> Check, idle: nat -> Check)

  /** The kind was seen after one of the first `count` actions, and nothing
      stopped the replay before. */
  ghost predicate Sighted(b: Behaviour, kind: Kind, count: nat) {
    exists k: nat ::
      1 <= k <= count && b.after(k) == Found(kind) && forall j: nat :: 1 <= j < k ==> b.after(j) != Raised
  }

  /** The replay of `count` actions goes on to the closing checks. */
  predicate Uneventful(b: Behaviour, kind: Kind, count: nat) {
    forall k: nat :: 1 <= k <= count ==> b.after(k) != Found(kind) && b.after(k) != Raised
  }

  /** The closing checks see the kind; only runaway CPU is looked for idle. */
  predicate ClosingSees(b: Behaviour, kind: Kind, count: nat) {
    || b.last(count) == Found(kind)
    || (kind == RunawayCpu && b.last(count) != Raised && b.idle(count) == Found(kind))
  }

  /** `reproduces`: act, check, and stop at the first sighting. */
  method Reproduces(b: Behaviour, kind: Kind, count: nat) returns (seen: bool)
    ensures seen <==> Sighted(b, kind, count) || (Uneventful(b, kind, count) && ClosingSees(b, kind, count))
  {
    for k := 1 to count + 1
      invariant Uneventful(b, kind, k - 1)
    {
      var finding := b.after(k);
      if finding == Raised {
        return false;
      }
      if finding == Found(kind) {
        return true;
      }
    }
    var finding := b.last(count);
    if finding == Raised {
      return false;
    }
    if finding == Found(kind) {
      return true;
    }
    if kind == RunawayCpu {
      return b.idle(count) == Found(kind);
    }
    return false;
  }

  /** Whether a replay of each length shows the kind. */
  ghost predicate Shows(b: Behaviour, kind: Kind, fails: nat -> bool) {
    forall n: nat :: fails(n) <==> Sighted(b, kind, n) || (Uneventful(b, kind, n) && ClosingSees(b, kind, n))
  }

  lemma SightingsStay(b: Behaviour, kind: Kind, m: nat, n: nat)
    requires m <= n && Sighted(b, kind, m)
    ensures Sighted(b, kind, n)
  {
    var k: nat :| 1 <= k <= m && b.after(k) == Found(kind) && forall j: nat :: 1 <= j < k ==> b.after(j) != Raised;
    assert 1 <= k <= n;
  }

  lemma {:induction false} GuidedFrom(fails: nat -> bool, c: nat, lo: nat, hi: nat, left: nat)
    requires lo < c <= hi && forall m :: c <= m <= hi ==> fails(m)
    ensures Guides(fails, c, lo, hi, left)
    decreases left
  {
    if hi - lo > 1 && left > 0 {
      var mid := (lo + hi) / 2;
      if mid >= c {
        GuidedFrom(fails, c, lo, mid, left - 1);
      } else {
        GuidedFrom(fails, c, mid, hi, left - 1);
      }
    }
  }

  /** The documented assumption holds of what is seen right after an action: if
      the shortest failing prefix fails that way, and not only in its closing
      checks, it is the one returned. */
  lemma SightedIsShortest(b: Behaviour, kind: Kind, reproduces: Oracle, fails: nat -> bool, failingCount: nat, c: nat)
    requires Shows(b, kind, fails) && forall k, n :: reproduces(k, n) == fails(n)
    requires fails(failingCount) && !(kind == RunawayCpu && fails(0)) && failingCount <= 16384
    requires 1 <= c <= failingCount && Sighted(b, kind, c) && forall m :: 1 <= m < c ==> !fails(m)
    ensures Shortened(reproduces, failingCount, kind == RunawayCpu, 14) == Some(c)
  {
    hide Search, Pow2, Lands, Guides;
    forall m | c <= m <= failingCount
      ensures fails(m)
    {
      SightingsStay(b, kind, c, m);
    }
    TwoTo14();
    GuidedFrom(fails, c, 0, failingCount, 14);
    ShortestExactly(reproduces, fails, failingCount, kind == RunawayCpu, 14, c);
  }

  /** Runaway CPU is looked for after the last action only, so it may come and
      go with the length. */
  function Flicker(): Behaviour {
    Behaviour(k => Healthy, c => Healthy, c => if c == 1 || c == 4 then Found(RunawayCpu) else Healthy)
  }

  /** Here one action is enough to spin the CPU, the second calms it and the
      fourth spins it again; all four are returned. */
  lemma NotAlwaysShortest()
    ensures var fails := (c: nat) => c == 1 || c == 4;
            && Shows(Flicker(), RunawayCpu, fails) && fails(1)
            && Shortened((k: nat, c: nat) => fails(c), 4, true, 14) == Some(4)
  {
    var fails := (c: nat) => c == 1 || c == 4;
    var reproduces: Oracle := (k: nat, c: nat) => fails(c);
    assert Search(reproduces, 4, 3, 4, 12) == (3, 4);
    assert Search(reproduces, 3, 2, 4, 13) == (3, 4);
    assert Search(reproduces, 2, 0, 4, 14) == (3, 4);
  }
}
