/** One scan of the process table and the sums over a process tree
    (scripts/behavior/run_memory_soak.py:225-312). */
module ProcessTree {
  import opened Wrappers
  import opened ProcStat

  /** A file under `/proc`: its text, no file to read, or bytes that are no text
      (a command name may be cut inside a character). Only reading the last
      raises an error that nobody catches. */
  datatype Content = Text(text: string) | Unreadable | Undecodable

  /** A `/proc` entry: a process and its `stat` file. */
  datatype Entry = Entry(pid: nat, stat: Content)

  function StatOf(toInt: ToInt, e: Entry): Option<Stat> {
    if e.stat.Text? then Parse(toInt, e.stat.text) else None
  }

  /** Every entry can be read as text or not at all. */
  predicate Decodable(entries: seq<Entry>) {
    forall i :: 0 <= i < |entries| ==> !entries[i].stat.Undecodable?
  }

  /** The entries that were read, as process and parent. */
  function Links(toInt: ToInt, entries: seq<Entry>): seq<(nat, int)> {
    if entries == [] then [] else
    var front := Links(toInt, entries[..|entries| - 1]);
    var e := entries[|entries| - 1];
    if StatOf(toInt, e).None? then front else front + [(e.pid, StatOf(toInt, e).value.ppid)]
  }

  /** A chain of processes, each a child of the one before. */
  ghost predicate Descent(links: seq<(nat, int)>, path: seq<nat>) {
    && path != []
    && forall i :: 0 < i < |path| ==> (path[i], path[i - 1]) in links
  }

  ghost predicate Scanned(links: seq<(nat, int)>, p: nat) {
    exists q :: (p, q) in links
  }

  /** `p` descends from `root`, or is it; the root must have been scanned. */
  ghost predicate Descends(links: seq<(nat, int)>, root: nat, p: nat) {
    && Scanned(links, root)
    && exists path :: Descent(links, path) && path[0] == root && path[|path| - 1] == p
  }

  function ChildrenOf(links: seq<(nat, int)>, parent: int): (c: seq<nat>)
    ensures forall p :: p in c <==> (p, parent) in links
  {
    if links == [] then [] else
    var n := |links| - 1;
    assert links == links[..n] + [links[n]];
    ChildrenOf(links[..n], parent) + if links[n].1 == parent then [links[n].0] else []
  }

  function Kids(children: map<int, seq<nat>>, parent: int): seq<nat> {
    if parent in children then children[parent] else []
  }

  /** `children` lists the links by parent, `all` the linked processes. */
  ghost predicate Tabulates(children: map<int, seq<nat>>, all: set<nat>, links: seq<(nat, int)>) {
    && (forall p :: p in all <==> Scanned(links, p))
    && (forall q :: Kids(children, q) == ChildrenOf(links, q))
  }

  /** The first loop of `build_descendant_set`; `None` is the uncaught error. */
  method Scan(toInt: ToInt, entries: seq<Entry>) returns (table: Option<(map<int, seq<nat>>, set<nat>)>)
    ensures table.Some? <==> Decodable(entries)
    ensures table.Some? ==> Tabulates(table.value.0, table.value.1, Links(toInt, entries))
  {
    hide Parse;
    var children: map<int, seq<nat>>, all: set<nat> := map[], {};
    assert entries[..0] == [];
    for i := 0 to |entries|
      invariant Decodable(entries[..i])
      invariant Tabulates(children, all, Links(toInt, entries[..i]))
    {
      hide Links, Tabulates;
      var e := entries[i];
      LinksStep(toInt, entries, i);
      if e.stat.Undecodable? {
        return None;
      }
      if e.stat.Unreadable? {
        continue;
      }
      var stat := Parse(toInt, e.stat.text);
      if stat.None? {
        continue;
      }
      OneLink(children, all, Links(toInt, entries[..i]), e.pid, stat.value.ppid);
      all := all + {e.pid};
      children := children[stat.value.ppid := Kids(children, stat.value.ppid) + [e.pid]];
    }
    assert entries[..|entries|] == entries;
    return Some((children, all));
  }

  lemma LinksStep(toInt: ToInt, entries: seq<Entry>, i: nat)
    requires i < |entries|
    ensures var stat := StatOf(toInt, entries[i]); var before := Links(toInt, entries[..i]);
            Links(toInt, entries[..i + 1])
            == if stat.None? then before else before + [(entries[i].pid, stat.value.ppid)]
  {
    assert entries[..i + 1][..i] == entries[..i];
  }

  lemma OneLink(children: map<int, seq<nat>>, all: set<nat>, links: seq<(nat, int)>, pid: nat, ppid: int)
    requires Tabulates(children, all, links)
    ensures Tabulates(children[ppid := Kids(children, ppid) + [pid]], all + {pid}, links + [(pid, ppid)])
  {
    hide ChildrenOf;
    var more, kids := links + [(pid, ppid)], children[ppid := Kids(children, ppid) + [pid]];
    MoreLinked(links, pid, ppid);
    forall q
      ensures Kids(kids, q) == ChildrenOf(more, q)
    {
      MoreChildren(links, pid, ppid, q);
    }
  }

  lemma MoreLinked(links: seq<(nat, int)>, pid: nat, ppid: int)
    ensures forall p :: Scanned(links + [(pid, ppid)], p) <==> p == pid || Scanned(links, p)
  {
    var more := links + [(pid, ppid)];
    assert (pid, ppid) in more;
    assert forall p, q :: (p, q) in more <==> (p, q) in links || (p == pid && q == ppid);
  }

  lemma MoreChildren(links: seq<(nat, int)>, pid: nat, ppid: int, q: int)
    ensures ChildrenOf(links + [(pid, ppid)], q)
            == if q == ppid then ChildrenOf(links, q) + [pid] else ChildrenOf(links, q)
  {
    assert (links + [(pid, ppid)])[..|links|] == links;
    assert ChildrenOf(links, q) + [] == ChildrenOf(links, q);
  }

  /** `build_descendant_set`: exactly the processes that descend from the root,
      even if the links contain a cycle; each is queued once (`queued`). */
  method DescendantSet(toInt: ToInt, entries: seq<Entry>, root: nat)
    returns (found: Option<set<nat>>, ghost queued: seq<nat>)
    ensures found.Some? <==> Decodable(entries)
    ensures found.Some? ==> forall p :: p in found.value <==> Descends(Links(toInt, entries), root, p)
    ensures found.Some? ==> forall p :: p in queued <==> p in found.value
    ensures forall i, j :: 0 <= i < j < |queued| ==> queued[i] != queued[j]
  {
    hide Descends, Links, ChildrenOf, Decodable;
    var table := Scan(toInt, entries);
    if table.None? {
      return None, [];
    }
    var (children, all) := table.value;
    ghost var links := Links(toInt, entries);
    queued := [];
    if root !in all {
      RootScanned(links, root);
      return Some({}), [];
    }
    var result := {root};
    var queue := [root];
    queued := [root];
    Alone(links, root);
    ghost var pids := Pids(links) + {root};
    while queue != []
      invariant root in result && result <= pids
      invariant forall p :: p in queue ==> p in result
      invariant forall p :: p in result ==> Descends(links, root, p)
      invariant forall p, c :: p in result && p !in queue && (c, p) in links ==> c in result
      invariant forall i, j :: 0 <= i < j < |queued| ==> queued[i] != queued[j]
      invariant forall p :: p in queued <==> p in result
      decreases pids - result, |queue|
    {
      var current := queue[|queue| - 1];
      ghost var was := queue;
      queue := queue[..|queue| - 1];
      assert forall p :: p in was ==> p in queue || p == current;
      var kids := Kids(children, current);
      assert forall c :: c in kids <==> (c, current) in links;
      result, queue, queued := Enqueue(links, root, current, kids, result, queue, queued);
    }
    ClosedHoldsDescendants(links, result, root);
    found := Some(result);
  }

  /** The inner loop: children not seen before join the set and the queue. */
  method Enqueue(ghost links: seq<(nat, int)>, ghost root: nat, current: nat, kids: seq<nat>,
                 result: set<nat>, queue: seq<nat>, ghost queued: seq<nat>)
    returns (more: set<nat>, longer: seq<nat>, ghost listed: seq<nat>)
    requires current in result && Descends(links, root, current)
    requires forall c :: c in kids <==> (c, current) in links
    requires forall p :: p in queue ==> p in result
    requires forall p :: p in result ==> Descends(links, root, p)
    requires forall i, j :: 0 <= i < j < |queued| ==> queued[i] != queued[j]
    requires forall p :: p in queued <==> p in result
    ensures more == result + set c | c in kids
    ensures forall p :: p in longer <==> p in queue || (p in more && p !in result)
    ensures more == result ==> longer == queue
    ensures forall p :: p in more ==> Descends(links, root, p)
    ensures forall i, j :: 0 <= i < j < |listed| ==> listed[i] != listed[j]
    ensures forall p :: p in listed <==> p in more
  {
    more, longer, listed := result, queue, queued;
    for i := 0 to |kids|
      invariant more == result + set k | 0 <= k < i :: kids[k]
      invariant forall p :: p in longer <==> p in queue || (p in more && p !in result)
      invariant more == result ==> longer == queue
      invariant forall p :: p in more ==> Descends(links, root, p)
      invariant forall i, j :: 0 <= i < j < |listed| ==> listed[i] != listed[j]
      invariant forall p :: p in listed <==> p in more
    {
      var child := kids[i];
      if child !in more {
        assert (child, current) in links;
        OneFurther(links, root, current, child);
        more, longer, listed := more + {child}, longer + [child], listed + [child];
      }
    }
  }

  function Pids(links: seq<(nat, int)>): (pids: set<nat>)
    ensures forall p, q :: (p, q) in links ==> p in pids
  {
    set l | l in links :: l.0
  }

  /** All descendants of `root`. */
  ghost function Tree(links: seq<(nat, int)>, root: nat): (tree: set<nat>)
    ensures forall p :: p in tree <==> Descends(links, root, p)
  {
    DescendantsLinked(links, root);
    set p | p in Pids(links) && Descends(links, root, p)
  }

  lemma DescendantsLinked(links: seq<(nat, int)>, root: nat)
    ensures forall p :: Descends(links, root, p) ==> p in Pids(links)
  {
    hide Pids;
    forall p | Descends(links, root, p)
      ensures p in Pids(links)
    {
      var path :| Descent(links, path) && path[0] == root && path[|path| - 1] == p;
      if |path| > 1 {
        assert (path[|path| - 1], path[|path| - 2]) in links;
      }
    }
  }

  lemma Alone(links: seq<(nat, int)>, root: nat)
    requires Scanned(links, root)
    ensures Descends(links, root, root)
  {
    assert Descent(links, [root]);
  }

  lemma OneFurther(links: seq<(nat, int)>, root: nat, p: nat, child: nat)
    requires Descends(links, root, p) && (child, p) in links
    ensures Descends(links, root, child)
  {
    var path :| Descent(links, path) && path[0] == root && path[|path| - 1] == p;
    assert Descent(links, path + [child]);
  }

  lemma RootScanned(links: seq<(nat, int)>, root: nat)
    requires !Scanned(links, root)
    ensures forall p :: !Descends(links, root, p)
  {
  }

  lemma ClosedHoldsDescendants(links: seq<(nat, int)>, closed: set<nat>, root: nat)
    requires root in closed && forall p, c :: p in closed && (c, p) in links ==> c in closed
    ensures forall p :: Descends(links, root, p) ==> p in closed
  {
    forall p | Descends(links, root, p)
      ensures p in closed
    {
      var path :| Descent(links, path) && path[0] == root && path[|path| - 1] == p;
      ClosedHoldsPath(links, closed, path);
    }
  }

  lemma {:induction false} ClosedHoldsPath(links: seq<(nat, int)>, closed: set<nat>, path: seq<nat>)
    requires Descent(links, path) && path[0] in closed
    requires forall p, c :: p in closed && (c, p) in links ==> c in closed
    ensures path[|path| - 1] in closed
  {
    if |path| > 1 {
      var front := path[..|path| - 1];
      assert Descent(links, front);
      ClosedHoldsPath(links, closed, front);
      assert (path[|path| - 1], path[|path| - 2]) in links;
    }
  }

  // ------------------------------------------------------------ sums over the tree

  datatype Status = Status(rss: nat, threads: nat, swap: nat)

  datatype Rollup = Rollup(pss: nat, anon: nat, file: nat, swap: nat)

  /** What one process's files gave; `None` where reading or parsing failed.
      All are read as text first, which fails if one is not. */
  datatype Reading = Reading(
    decodable: bool, stat: Option<Stat>, status: Option<Status>, rollup: Option<Rollup>, fds: Option<nat>)

  datatype Totals = Totals(
    rss: nat, threads: nat, vmSwap: nat, pss: nat, anon: nat, file: nat, swapPss: nat, ticks: int, fds: nat)

  const NOTHING := Totals(0, 0, 0, 0, 0, 0, 0, 0, 0)

  function Plus(a: Totals, b: Totals): Totals {
    Totals(a.rss + b.rss, a.threads + b.threads, a.vmSwap + b.vmSwap, a.pss + b.pss, a.anon + b.anon,
           a.file + b.file, a.swapPss + b.swapPss, a.ticks + b.ticks, a.fds + b.fds)
  }

  /** What one process adds; a reading that failed adds nothing. */
  function Share(r: Reading): Totals {
    var s := if r.status.Some? then r.status.value else Status(0, 0, 0);
    var u := if r.rollup.Some? then r.rollup.value else Rollup(0, 0, 0, 0);
    Totals(s.rss, s.threads, s.swap, u.pss, u.anon, u.file, u.swap,
           if r.stat.Some? then r.stat.value.utime + r.stat.value.stime else 0, if r.fds.Some? then r.fds.value else 0)
  }

  /** The sum over a set of processes. */
  ghost function SumOver(pids: set<nat>, reading: nat -> Reading): Totals {
    if pids == {} then NOTHING else
    var p :| p in pids;
    Plus(Share(reading(p)), SumOver(pids - {p}, reading))
  }

  lemma PlusLaws(a: Totals, b: Totals, c: Totals)
    ensures Plus(a, Plus(b, c)) == Plus(b, Plus(a, c)) == Plus(Plus(a, b), c)
    ensures Plus(NOTHING, a) == a == Plus(a, NOTHING)
  {
  }

  /** The order of summation does not matter. */
  lemma {:induction false} SumWithout(pids: set<nat>, p: nat, reading: nat -> Reading)
    requires p in pids
    ensures SumOver(pids, reading) == Plus(Share(reading(p)), SumOver(pids - {p}, reading))
    decreases |pids|
  {
    hide Share, Plus;
    var q :| q in pids && SumOver(pids, reading) == Plus(Share(reading(q)), SumOver(pids - {q}, reading));
    if q != p {
      SumWithout(pids - {q}, p, reading);
      SumWithout(pids - {p}, q, reading);
      assert pids - {q} - {p} == pids - {p} - {q};
      PlusLaws(Share(reading(q)), Share(reading(p)), SumOver(pids - {p} - {q}, reading));
    }
  }

  /** Splitting the tree splits the sums: no process is counted twice. */
  lemma {:induction false} SumOfParts(a: set<nat>, b: set<nat>, reading: nat -> Reading)
    requires a !! b
    ensures SumOver(a + b, reading) == Plus(SumOver(a, reading), SumOver(b, reading))
    decreases |a|
  {
    hide Share, Plus;
    if a == {} {
      assert a + b == b;
      PlusLaws(SumOver(b, reading), NOTHING, NOTHING);
    } else {
      hide SumOver;
      var p :| p in a;
      SumWithout(a, p, reading);
      SumWithout(a + b, p, reading);
      assert a + b - {p} == (a - {p}) + b;
      SumOfParts(a - {p}, b, reading);
      PlusLaws(Share(reading(p)), SumOver(a - {p}, reading), SumOver(b, reading));
    }
  }

  /** The sums of a single process: its user and system ticks together, the
      fields of its files each in its own sum, and nothing where a file gave
      nothing. With `SumOfParts` this settles every sum. */
  lemma OneProcess(p: nat, reading: nat -> Reading)
    ensures var sum, r := SumOver({p}, reading), reading(p);
            && sum.ticks == (if r.stat.Some? then r.stat.value.utime + r.stat.value.stime else 0)
            && sum.rss == (if r.status.Some? then r.status.value.rss else 0)
            && sum.threads == (if r.status.Some? then r.status.value.threads else 0)
            && sum.vmSwap == (if r.status.Some? then r.status.value.swap else 0)
            && sum.pss == (if r.rollup.Some? then r.rollup.value.pss else 0)
            && sum.anon == (if r.rollup.Some? then r.rollup.value.anon else 0)
            && sum.file == (if r.rollup.Some? then r.rollup.value.file else 0)
            && sum.swapPss == (if r.rollup.Some? then r.rollup.value.swap else 0)
            && sum.fds == (if r.fds.Some? then r.fds.value else 0)
  {
    hide SumOver;
    SumOfOne(p, reading);
  }

  lemma SumOfOne(p: nat, reading: nat -> Reading)
    ensures SumOver({p}, reading) == Share(reading(p))
  {
    hide Share, Plus;
    SumWithout({p}, p, reading);
    assert {p} - {p} == {};
    PlusLaws(Share(reading(p)), NOTHING, NOTHING);
  }

  datatype Sample = Sample(processes: nat, totals: Totals, cpuSeconds: real)

  datatype SampleError = NotText | BadHertz

  /** `sample_tree`: every descendant counted, each once; nothing without a
      root; an error if any text read on the way is none, or for a clock rate
      that is not positive. */
  method SampleTree(toInt: ToInt, entries: seq<Entry>, root: nat, reading: nat -> Reading, hertz: int)
    returns (sample: Result<Option<Sample>, SampleError>)
    ensures var tree := Tree(Links(toInt, entries), root);
            if !Decodable(entries) then sample == Err(NotText)
            else if tree == {} then sample == Ok(None)
            else if exists p :: p in tree && !reading(p).decodable then sample == Err(NotText)
            else if hertz <= 0 then sample == Err(BadHertz)
            else
              && sample.Ok? && sample.value.Some?
              && sample.value.value.processes == |tree|
              && sample.value.value.totals == SumOver(tree, reading)
              && IsSeconds(sample.value.value.cpuSeconds, SumOver(tree, reading).ticks, hertz)
  {
    hide Descends, Links, Decodable, SumOver;
    var found, queued := DescendantSet(toInt, entries, root);
    if found.None? {
      return Err(NotText);
    }
    var pids := found.value;
    assert pids == Tree(Links(toInt, entries), root);
    if pids == {} {
      return Ok(None);
    }
    var sum := AddUp(pids, reading);
    if sum.None? {
      return Err(NotText);
    }
    if hertz <= 0 {
      return Err(BadHertz);
    }
    Seconds(sum.value.ticks, hertz);
    return Ok(Some(Sample(|pids|, sum.value, sum.value.ticks as real / hertz as real)));
  }

  /** `seconds` of `hertz` ticks each make up `ticks`. */
  predicate IsSeconds(seconds: real, ticks: int, hertz: int) {
    seconds * hertz as real == ticks as real
  }

  lemma Seconds(ticks: int, hertz: int)
    requires hertz > 0
    ensures IsSeconds(ticks as real / hertz as real, ticks, hertz)
  {
  }

  /** The loop over processes; `None` if one has a file that is no text. */
  method AddUp(pids: set<nat>, reading: nat -> Reading) returns (total: Option<Totals>)
    ensures total == if exists p :: p in pids && !reading(p).decodable then None else Some(SumOver(pids, reading))
  {
    hide Share, Plus;
    var sum, left := NOTHING, pids;
    PlusLaws(SumOver(pids, reading), NOTHING, NOTHING);
    while left != {}
      invariant left <= pids && forall p :: p in pids && p !in left ==> reading(p).decodable
      invariant Plus(sum, SumOver(left, reading)) == SumOver(pids, reading)
      decreases left
    {
      var p :| p in left;
      if !reading(p).decodable {
        return None;
      }
      SumWithout(left, p, reading);
      PlusLaws(sum, Share(reading(p)), SumOver(left - {p}, reading));
      sum := Accumulate(sum, reading(p));
      left := left - {p};
    }
    PlusLaws(sum, NOTHING, NOTHING);
    return Some(sum);
  }

  /** The body of the loop over processes. */
  method Accumulate(sum: Totals, r: Reading) returns (total: Totals)
    ensures total == Plus(sum, Share(r))
  {
    total := sum;
    if r.stat.Some? {
      total := total.(ticks := total.ticks + (r.stat.value.utime + r.stat.value.stime));
    }
    if r.status.Some? {
      var s := r.status.value;
      total := total.(rss := total.rss + s.rss, threads := total.threads + s.threads, vmSwap := total.vmSwap + s.swap);
    }
    if r.rollup.Some? {
      var u := r.rollup.value;
      total := total.(pss := total.pss + u.pss, anon := total.anon + u.anon, file := total.file + u.file,
                      swapPss := total.swapPss + u.swap);
    }
    if r.fds.Some? {
      total := total.(fds := total.fds + r.fds.value);
    }
  }
}
