/** The `pw-dump --monitor` / `wpctl` wake protocol of the fake sound server,
    as interleaved steps of any number of monitor and writer processes
    (scripts/behavior/fake_audio.py:173-205 and 241-253).

    One action is one system call the other processes can observe. Replacing
    the state file is atomic; two writers may still overwrite each other. */
module WakeProtocol {
  import opened Wrappers
  import opened FakeAudio

  /** Bytes a FIFO holds before a non-blocking write fails, and the most one
      monitor read takes out. */
  const PIPE_CAPACITY: nat := 65536
  const READ_SIZE: nat := 64

  type Printed = Option<seq<Object>>

  datatype MonitorPhase =
    | NotStarted
    | FifoMade                       // the FIFO exists but has no reader yet
    | Reading                        // about to read the state file
    | Printing(state: AudioState)    // has read the file, has not printed yet
    | Waiting                        // blocked in read, or about to be
    | Gone                           // exited; the FIFO is unlinked

  datatype Monitor = Monitor(phase: MonitorPhase, pending: nat, shown: Printed)

  datatype Change = Wpctl(command: Command) | SetGraph(kind: GraphKind)

  datatype Writer =
    | Launched(change: Change)
    | Ready(next: AudioState)              // knows what to write
    | Committed                            // has replaced the state file
    | Scanning(present: set<nat>)          // lists the directory; `present` existed at the start
    | Waking(todo: set<nat>)               // listed FIFOs not woken yet
    | Holding(monitor: nat, todo: set<nat>) // has one of them open
    | Exited(code: int)

  datatype System = System(dump: seq<Object>, file: AudioState, monitors: seq<Monitor>, writers: seq<Writer>)

  predicate FifoExists(m: Monitor) {
    m.phase != NotStarted && m.phase != Gone
  }

  predicate HasReader(m: Monitor) {
    m.phase.Reading? || m.phase.Printing? || m.phase.Waiting?
  }

  function Fifos(s: System): (r: set<nat>)
    ensures forall i: nat :: i in r <==> i < |s.monitors| && FifoExists(s.monitors[i])
  {
    set i: nat | i < |s.monitors| && FifoExists(s.monitors[i])
  }

  datatype Action =
    | MakeFifo(i: nat)
    | OpenFifo(i: nat)
    | ReadState(i: nat)
    | Print(i: nat)
    | Drain(i: nat)
    | Exit(i: nat)
    | Decide(w: nat)                       // read the state file, work out the new one
    | Commit(w: nat)
    | StartScan(w: nat)
    | EndScan(w: nat, found: set<nat>)
    | OpenForWake(w: nat, m: nat)
    | WriteByte(w: nat)
    | Finish(w: nat)
  {
    /** Starting or stopping a monitor, or launching a writer: not a step of a
        process that is already running. */
    predicate External() { MakeFifo? || Exit? || Decide? }
  }

  predicate MonitorAction(a: Action) {
    a.MakeFifo? || a.OpenFifo? || a.ReadState? || a.Print? || a.Drain? || a.Exit?
  }

  predicate Enabled(s: System, a: Action) {
    if MonitorAction(a) then
      a.i < |s.monitors| &&
      var m := s.monitors[a.i];
      match a
      case MakeFifo(_) => m.phase == NotStarted
      case OpenFifo(_) => m.phase == FifoMade
      case ReadState(_) => m.phase == Reading
      case Print(_) => m.phase.Printing?
      case Drain(_) => m.phase == Waiting && m.pending > 0
      case _ => FifoExists(m)
    else
      a.w < |s.writers| &&
      var p := s.writers[a.w];
      match a
      case Decide(_) => p.Launched?
      case Commit(_) => p.Ready?
      case StartScan(_) => p.Committed?
      // A listing has every FIFO present throughout, and may have others.
      case EndScan(_, found) =>
        p.Scanning? && p.present * Fifos(s) <= found && forall i :: i in found ==> i < |s.monitors|
      case OpenForWake(_, m) => p.Waking? && m in p.todo
      case WriteByte(_) => p.Holding?
      case _ => p.Waking? && p.todo == {}
  }

  function DecideNext(s: System, change: Change): Writer {
    match change
    case SetGraph(kind) => Ready(InitialState(kind))
    case Wpctl(command) =>
      match Apply(s.file, command)
      case Ok(next) => Ready(next)
      case Err(code) => Exited(code)
  }

  function NextMonitor(s: System, a: Action): Monitor
    requires MonitorAction(a) && Enabled(s, a)
  {
    var m := s.monitors[a.i];
    match a
    case MakeFifo(_) => m.(phase := FifoMade)
    case OpenFifo(_) => m.(phase := Reading)
    case ReadState(_) => m.(phase := Printing(s.file))
    // A state the graph cannot be built from ends the monitor.
    case Print(_) =>
      if Graph(m.phase.state, s.dump).None? then m.(phase := Gone, pending := 0)
      else m.(phase := Waiting, shown := Graph(m.phase.state, s.dump))
    case Drain(_) => m.(phase := Reading, pending := if m.pending <= READ_SIZE then 0 else m.pending - READ_SIZE)
    case _ => m.(phase := Gone, pending := 0)
  }

  function NextWriter(s: System, a: Action): Writer
    requires !MonitorAction(a) && Enabled(s, a)
  {
    var p := s.writers[a.w];
    match a
    case Decide(_) => DecideNext(s, p.change)
    case Commit(_) => Committed
    case StartScan(_) => Scanning(Fifos(s))
    case EndScan(_, found) => Waking(found)
    // Opening a FIFO without a reader fails, and the FIFO is skipped.
    case OpenForWake(_, m) =>
      if m < |s.monitors| && HasReader(s.monitors[m]) then Holding(m, p.todo - {m}) else Waking(p.todo - {m})
    case WriteByte(_) => Waking(p.todo)
    case _ => Exited(0)
  }

  /** One more byte, unless the FIFO is full or its reader is gone. */
  function Poked(m: Monitor): Monitor {
    if HasReader(m) && m.pending < PIPE_CAPACITY then m.(pending := m.pending + 1) else m
  }

  /** What a wake does to one monitor: it finds a FIFO from its making to the
      exit, and a reader from the opening on; then it leaves a byte, unless
      65536 are waiting. */
  lemma WakeMeans(s: System, i: nat)
    requires i < |s.monitors|
    ensures i in Fifos(s) <==> !s.monitors[i].phase.NotStarted? && !s.monitors[i].phase.Gone?
    ensures var m := s.monitors[i];
            match m.phase
            case NotStarted => Poked(m) == m
            case FifoMade => Poked(m) == m
            case Gone => Poked(m) == m
            case _ => Poked(m) == m.(pending := if m.pending < 65536 then m.pending + 1 else m.pending)
  {
  }

  function Next(s: System, a: Action): (t: System)
    requires Enabled(s, a)
    ensures |t.monitors| == |s.monitors| && |t.writers| == |s.writers| && t.dump == s.dump
  {
    if MonitorAction(a) then
      s.(monitors := s.monitors[a.i := NextMonitor(s, a)])
    else
      var woken := if a.WriteByte? then s.writers[a.w].monitor else |s.monitors|;
      s.(file := if a.Commit? then s.writers[a.w].next else s.file,
         monitors := if woken < |s.monitors| then s.monitors[woken := Poked(s.monitors[woken])] else s.monitors,
         writers := s.writers[a.w := NextWriter(s, a)])
  }

  /** `run` can be executed from `s`. */
  ghost predicate Legal(s: System, run: seq<Action>)
    decreases |run|
  {
    run == [] || (Enabled(s, run[0]) && Legal(Next(s, run[0]), run[1..]))
  }

  ghost function Exec(s: System, run: seq<Action>): (t: System)
    requires Legal(s, run)
    ensures |t.monitors| == |s.monitors| && |t.writers| == |s.writers| && t.dump == s.dump
    decreases |run|
  {
    if run == [] then s else Exec(Next(s, run[0]), run[1..])
  }

  /** Before anything runs: any well-formed state file, any processes. */
  ghost predicate Init(s: System) {
    && LaptopDump(s.dump)
    && WellFormed(s.file)
    && (forall i :: 0 <= i < |s.monitors| ==> s.monitors[i] == Monitor(NotStarted, 0, None))
    && (forall w :: 0 <= w < |s.writers| ==> s.writers[w].Launched?)
  }

  // ------------------------------------------------------------ the invariant

  /** The writer has changed the state and has yet to wake monitor `i`. */
  predicate Owes(p: Writer, i: nat) {
    match p
    case Committed => true
    case Scanning(present) => i in present
    case Waking(todo) => i in todo
    case Holding(m, todo) => i == m || i in todo
    case _ => false
  }

  /** What the monitor shows, or is about to show, is not the current graph. */
  predicate Stale(s: System, m: Monitor) {
    || (m.phase.Printing? && m.phase.state != s.file)
    || (m.phase.Waiting? && m.shown != Graph(s.file, s.dump))
  }

  ghost predicate Owed(s: System, i: nat) {
    exists w :: 0 <= w < |s.writers| && Owes(s.writers[w], i)
  }

  ghost predicate MonitorOk(s: System, i: nat)
    requires i < |s.monitors|
  {
    var m := s.monitors[i];
    && (m.phase.Printing? ==> WellFormed(m.phase.state))
    && (!HasReader(m) ==> m.pending == 0)
    && (Stale(s, m) ==> m.pending > 0 || Owed(s, i))
  }

  ghost predicate WriterOk(s: System, p: Writer) {
    && (p.Ready? ==> WellFormed(p.next))
    && (p.Scanning? ==> forall i :: i in p.present ==> i < |s.monitors|)
    && (p.Waking? ==> forall i :: i in p.todo ==> i < |s.monitors|)
    && (p.Holding? ==> p.monitor < |s.monitors| && forall i :: i in p.todo ==> i < |s.monitors|)
  }

  ghost predicate Inv(s: System) {
    && LaptopDump(s.dump)
    && WellFormed(s.file)
    && (forall i :: 0 <= i < |s.monitors| ==> MonitorOk(s, i))
    && (forall w :: 0 <= w < |s.writers| ==> WriterOk(s, s.writers[w]))
  }

  lemma InitInv(s: System)
    requires Init(s)
    ensures Inv(s)
  {
  }

  lemma MonitorStepInv(s: System, a: Action)
    requires Inv(s) && MonitorAction(a) && Enabled(s, a)
    ensures Inv(Next(s, a))
  {
    var t := Next(s, a);
    forall i | 0 <= i < |t.monitors|
      ensures MonitorOk(t, i)
    {
      assert MonitorOk(s, i);
      assert Owed(s, i) ==> Owed(t, i) by {
        if w :| 0 <= w < |s.writers| && Owes(s.writers[w], i) {
          assert Owes(t.writers[w], i);
        }
      }
    }
    forall w | 0 <= w < |t.writers|
      ensures WriterOk(t, t.writers[w])
    {
      assert WriterOk(s, s.writers[w]);
    }
  }

  /** What a writer stops owing to a stale monitor it has handed over. */
  lemma DebtStep(s: System, a: Action, i: nat)
    requires Inv(s) && !MonitorAction(a) && Enabled(s, a) && i < |s.monitors|
    requires HasReader(s.monitors[i]) && Owed(s, i)
    ensures Owed(Next(s, a), i) || Next(s, a).monitors[i].pending > 0
  {
    var t := Next(s, a);
    var w :| 0 <= w < |s.writers| && Owes(s.writers[w], i);
    if w != a.w {
      assert Owes(t.writers[w], i);
    } else {
      assert Owes(t.writers[w], i) || t.monitors[i].pending > 0;
    }
  }

  lemma WriterStepWriters(s: System, a: Action)
    requires Inv(s) && !MonitorAction(a) && Enabled(s, a)
    ensures WellFormed(Next(s, a).file)
    ensures forall w :: 0 <= w < |s.writers| ==> WriterOk(Next(s, a), Next(s, a).writers[w])
  {
    hide WellFormed, MonitorOk;
    var t := Next(s, a);
    var p := s.writers[a.w];
    assert WriterOk(s, p);
    if a.Decide? {
      match p.change {
        case SetGraph(kind) => InitialWellFormed(kind);
        case Wpctl(command) => ApplyWellFormed(s.file, command);
      }
    }
    forall w | 0 <= w < |t.writers|
      ensures WriterOk(t, t.writers[w])
    {
      assert WriterOk(s, s.writers[w]);
    }
  }

  lemma WriterStepMonitor(s: System, a: Action, i: nat)
    requires Inv(s) && !MonitorAction(a) && Enabled(s, a) && i < |s.monitors|
    ensures MonitorOk(Next(s, a), i)
  {
    hide WellFormed, WriterOk;
    var t := Next(s, a);
    assert MonitorOk(s, i);
    if a.Commit? {
      assert Owes(t.writers[a.w], i);
    } else if Stale(t, t.monitors[i]) && s.monitors[i].pending == 0 {
      DebtStep(s, a, i);
    }
  }

  lemma WriterStepInv(s: System, a: Action)
    requires Inv(s) && !MonitorAction(a) && Enabled(s, a)
    ensures Inv(Next(s, a))
  {
    hide WellFormed, MonitorOk, WriterOk, Enabled;
    WriterStepWriters(s, a);
    forall i | 0 <= i < |s.monitors|
      ensures MonitorOk(Next(s, a), i)
    {
      WriterStepMonitor(s, a, i);
    }
  }

  lemma {:induction false} RunInv(s: System, run: seq<Action>)
    requires Inv(s) && Legal(s, run)
    ensures Inv(Exec(s, run))
    decreases |run|
  {
    if run != [] {
      if MonitorAction(run[0]) {
        MonitorStepInv(s, run[0]);
      } else {
        WriterStepInv(s, run[0]);
      }
      RunInv(Next(s, run[0]), run[1..]);
    }
  }

  // ------------------------------------------------------------ safety

  /** No writer is between its commit and its last wake. */
  predicate NoWriterWaking(s: System) {
    forall w :: 0 <= w < |s.writers| ==>
      s.writers[w].Launched? || s.writers[w].Ready? || s.writers[w].Exited? || s.writers[w] == Waking({})
  }

  /** No lost wakeup, in every interleaving: once no writer is waking, a
      monitor blocked on an empty FIFO shows the graph of the current state,
      and that graph is what a reader of the state expects. */
  lemma NoLostWakeup(s: System, run: seq<Action>, i: nat)
    requires Init(s) && Legal(s, run)
    requires NoWriterWaking(Exec(s, run))
    requires i < |s.monitors|
    requires Exec(s, run).monitors[i].phase == Waiting && Exec(s, run).monitors[i].pending == 0
    ensures var now := Exec(s, run);
            && Graph(now.file, now.dump).Some?
            && now.monitors[i].shown == Graph(now.file, now.dump)
            && Announced(now.monitors[i].shown.value)
               == (if now.file.defaultSink.Some? then [now.file.defaultSink] else [])
  {
    InitInv(s);
    RunInv(s, run);
    var now := Exec(s, run);
    assert MonitorOk(now, i);
    GraphReportsState(now.file, now.dump);
  }

  // ------------------------------------------------------------ termination

  function MonitorWork(m: Monitor): nat {
    4 * m.pending +
    match m.phase
    case NotStarted => 5
    case FifoMade => 4
    case Reading => 3
    case Printing(_) => 2
    case Waiting => 1
    case Gone => 0
  }

  /** Work left to a writer when there are `n` monitors. */
  function WriterWork(p: Writer, n: nat): nat {
    match p
    case Launched(_) => 6 * n + 6
    case Ready(_) => 6 * n + 5
    case Committed => 6 * n + 4
    case Scanning(_) => 6 * n + 3
    case Waking(todo) => 6 * |todo| + 1
    case Holding(_, todo) => 6 * |todo| + 6
    case Exited(_) => 0
  }

  function MonitorsWork(ms: seq<Monitor>): nat {
    if ms == [] then 0 else MonitorWork(ms[0]) + MonitorsWork(ms[1..])
  }

  function WritersWork(ps: seq<Writer>, n: nat): nat {
    if ps == [] then 0 else WriterWork(ps[0], n) + WritersWork(ps[1..], n)
  }

  function Work(s: System): nat {
    MonitorsWork(s.monitors) + WritersWork(s.writers, |s.monitors|)
  }

  lemma {:induction false} MonitorsWorkUpdate(ms: seq<Monitor>, i: nat, m: Monitor)
    requires i < |ms|
    ensures MonitorsWork(ms[i := m]) == MonitorsWork(ms) - MonitorWork(ms[i]) + MonitorWork(m)
  {
    if i == 0 {
      assert ms[i := m][1..] == ms[1..];
    } else {
      assert ms[i := m][1..] == ms[1..][i - 1 := m];
      MonitorsWorkUpdate(ms[1..], i - 1, m);
    }
  }

  lemma {:induction false} WritersWorkUpdate(ps: seq<Writer>, n: nat, w: nat, p: Writer)
    requires w < |ps|
    ensures WritersWork(ps[w := p], n) == WritersWork(ps, n) - WriterWork(ps[w], n) + WriterWork(p, n)
  {
    if w == 0 {
      assert ps[w := p][1..] == ps[1..];
    } else {
      assert ps[w := p][1..] == ps[1..][w - 1 := p];
      WritersWorkUpdate(ps[1..], n, w - 1, p);
    }
  }

  lemma BelowHasAtMost(found: set<nat>, n: nat)
    requires forall i :: i in found ==> i < n
    ensures |found| <= n
  {
    if n == 0 {
      assert found == {};
    } else {
      BelowHasAtMost(found - {n - 1}, n - 1);
      assert |found - {n - 1}| >= |found| - 1;
    }
  }

  /** Every step uses up work: no process can run, or be woken, for ever. */
  lemma StepWork(s: System, a: Action)
    requires Enabled(s, a)
    ensures Work(Next(s, a)) < Work(s)
  {
    var t := Next(s, a);
    if MonitorAction(a) {
      MonitorsWorkUpdate(s.monitors, a.i, NextMonitor(s, a));
    } else {
      WritersWorkUpdate(s.writers, |s.monitors|, a.w, NextWriter(s, a));
      WriterStepWork(s, a);
      if a.WriteByte? && s.writers[a.w].monitor < |s.monitors| {
        var m := s.writers[a.w].monitor;
        MonitorsWorkUpdate(s.monitors, m, Poked(s.monitors[m]));
      }
    }
  }

  /** A write costs its writer more than the byte can cost the monitor. */
  lemma WriterStepWork(s: System, a: Action)
    requires !MonitorAction(a) && Enabled(s, a)
    ensures WriterWork(NextWriter(s, a), |s.monitors|) + (if a.WriteByte? then 5 else 1)
            <= WriterWork(s.writers[a.w], |s.monitors|)
  {
    if a.EndScan? {
      BelowHasAtMost(a.found, |s.monitors|);
    }
  }

  lemma {:induction false} RunsAreBounded(s: System, run: seq<Action>)
    requires Legal(s, run)
    ensures |run| + Work(Exec(s, run)) <= Work(s)
    decreases |run|
  {
    if run != [] {
      StepWork(s, run[0]);
      RunsAreBounded(Next(s, run[0]), run[1..]);
    }
  }

  // ------------------------------------------------------------ liveness

  predicate AtRest(m: Monitor) {
    m.phase == NotStarted || m.phase == Gone || (m.phase == Waiting && m.pending == 0)
  }

  /** Nothing that has been started has anything left to do. */
  predicate Settled(s: System) {
    && (forall i :: 0 <= i < |s.monitors| ==> AtRest(s.monitors[i]))
    && (forall w :: 0 <= w < |s.writers| ==> s.writers[w].Launched? || s.writers[w].Exited?)
  }

  /** A started process that is not done can take a step by itself: the
      protocol has no deadlock. */
  lemma SomeStep(s: System) returns (a: Action)
    requires !Settled(s)
    ensures Enabled(s, a) && !a.External()
  {
    if i :| 0 <= i < |s.monitors| && !AtRest(s.monitors[i]) {
      match s.monitors[i].phase {
        case FifoMade => a := OpenFifo(i);
        case Reading => a := ReadState(i);
        case Printing(_) => a := Print(i);
        case Waiting => a := Drain(i);
      }
    } else {
      var w :| 0 <= w < |s.writers| && !(s.writers[w].Launched? || s.writers[w].Exited?);
      match s.writers[w] {
        case Ready(_) => a := Commit(w);
        case Committed => a := StartScan(w);
        case Scanning(present) => a := EndScan(w, Fifos(s));
        case Waking(todo) =>
          if todo == {} {
            a := Finish(w);
          } else {
            var m :| m in todo;
            a := OpenForWake(w, m);
          }
        case Holding(_, _) => a := WriteByte(w);
      }
    }
  }

  predicate AllCurrent(s: System) {
    && Graph(s.file, s.dump).Some?
    && forall i :: 0 <= i < |s.monitors| ==>
         || s.monitors[i].phase == NotStarted || s.monitors[i].phase == Gone
         || s.monitors[i].shown == Graph(s.file, s.dump)
  }

  lemma SettledIsCurrent(s: System)
    requires Inv(s) && Settled(s)
    ensures AllCurrent(s)
  {
    GraphReportsState(s.file, s.dump);
    forall i | 0 <= i < |s.monitors|
      ensures s.monitors[i].phase == NotStarted || s.monitors[i].phase == Gone
              || s.monitors[i].shown == Graph(s.file, s.dump)
    {
      assert MonitorOk(s, i);
    }
  }

  /** A run that only starting or stopping something could extend has settled,
      with every live monitor showing the graph of the last committed state.
      With `RunsAreBounded`, every schedule gets there. */
  lemma MaximalRunsSettle(s: System, run: seq<Action>)
    requires Init(s) && Legal(s, run)
    requires forall a :: Enabled(Exec(s, run), a) ==> a.External()
    ensures Settled(Exec(s, run)) && AllCurrent(Exec(s, run))
  {
    InitInv(s);
    RunInv(s, run);
    if !Settled(Exec(s, run)) {
      var a := SomeStep(Exec(s, run));
      assert false;
    }
    SettledIsCurrent(Exec(s, run));
  }

  lemma {:induction false} RunAppend(s: System, run: seq<Action>, a: Action)
    requires Legal(s, run) && Enabled(Exec(s, run), a)
    ensures Legal(s, run + [a]) && Exec(s, run + [a]) == Next(Exec(s, run), a)
    decreases |run|
  {
    if run == [] {
      assert [a][1..] == [];
    } else {
      assert (run + [a])[1..] == run[1..] + [a];
      RunAppend(Next(s, run[0]), run[1..], a);
    }
  }

  // ------------------------------------------------- the processes themselves

  // The steps one process takes when no other interferes.

  lemma ScanStep(s: System, w: nat)
    requires w < |s.writers| && s.writers[w] == Committed
    ensures Enabled(s, StartScan(w)) && Next(s, StartScan(w)) == s.(writers := s.writers[w := Scanning(Fifos(s))])
  {
  }

  lemma ListStep(s: System, w: nat, present: set<nat>, found: set<nat>)
    requires w < |s.writers| && s.writers[w] == Scanning(present) && found == Fifos(s)
    ensures Enabled(s, EndScan(w, found)) && Next(s, EndScan(w, found)) == s.(writers := s.writers[w := Waking(found)])
  {
  }

  lemma FinishStep(s: System, w: nat)
    requires w < |s.writers| && s.writers[w] == Waking({})
    ensures Enabled(s, Finish(w)) && Next(s, Finish(w)) == s.(writers := s.writers[w := Exited(0)])
  {
  }

  lemma MonitorStep(s: System, a: Action)
    requires MonitorAction(a) && Enabled(s, a)
    ensures Next(s, a) == s.(monitors := s.monitors[a.i := NextMonitor(s, a)])
  {
  }

  /** Read from the FIFO, read the file, print. */
  lemma TurnSteps(s: System, i: nat)
    requires i < |s.monitors| && s.monitors[i].phase == Waiting && s.monitors[i].pending > 0
    requires Graph(s.file, s.dump).Some?
    ensures var had := s.monitors[i].pending; var left := if had <= 64 then 0 else had - 64;
            var drained := s.(monitors := s.monitors[i := s.monitors[i].(phase := Reading, pending := left)]);
            var read := s.(monitors := s.monitors[i := s.monitors[i].(phase := Printing(s.file), pending := left)]);
            && Enabled(s, Drain(i)) && Next(s, Drain(i)) == drained
            && Enabled(drained, ReadState(i)) && Next(drained, ReadState(i)) == read
            && Enabled(read, Print(i))
            && Next(read, Print(i)) == s.(monitors := s.monitors[i := Monitor(Waiting, left, Graph(s.file, s.dump))])
  {
    hide Next;
    MonitorStep(s, Drain(i));
    var drained := Next(s, Drain(i));
    MonitorStep(drained, ReadState(i));
    var read := Next(drained, ReadState(i));
    assert drained.monitors[i := read.monitors[i]] == s.monitors[i := read.monitors[i]];
    MonitorStep(read, Print(i));
    var printed := Next(read, Print(i));
    assert read.monitors[i := printed.monitors[i]] == s.monitors[i := printed.monitors[i]];
  }

  /** The programs of the script, each run without interruption: every one is a
      run of the protocol above, so the theorems hold for it too. */
  class Session {
    var sys: System

    method Take(a: Action, ghost before: System, ghost run: seq<Action>)
      requires Legal(before, run) && Exec(before, run) == sys && Enabled(sys, a)
      modifies this
      ensures sys == Next(old(sys), a)
      ensures Legal(before, run + [a]) && Exec(before, run + [a]) == sys
    {
      RunAppend(before, run, a);
      sys := Next(sys, a);
    }

    /** One FIFO: open it without blocking, write a byte, close it. */
    method WakeOne(w: nat, m: nat, todo: set<nat>) returns (ghost run: seq<Action>)
      requires w < |sys.writers| && sys.writers[w] == Waking(todo) && m in todo && m < |sys.monitors|
      modifies this
      ensures Legal(old(sys), run) && Exec(old(sys), run) == sys
      ensures sys == old(sys).(monitors := old(sys.monitors)[m := Poked(old(sys.monitors)[m])],
                               writers := old(sys.writers)[w := Waking(todo - {m})])
    {
      ghost var before := sys;
      Take(OpenForWake(w, m), before, []);
      run := [] + [OpenForWake(w, m)];
      if sys.writers[w].Holding? {
        Take(WriteByte(w), before, run);
        run := run + [WriteByte(w)];
      }
    }

    /** `wake_monitors`: one byte to each FIFO that has a reader. */
    method WakeMonitors(w: nat) returns (ghost run: seq<Action>)
      requires w < |sys.writers| && sys.writers[w] == Committed
      modifies this
      ensures Legal(old(sys), run) && Exec(old(sys), run) == sys
      ensures sys.writers == old(sys.writers)[w := Exited(0)] && sys.file == old(sys.file)
      ensures |sys.monitors| == |old(sys.monitors)|
      ensures forall i :: 0 <= i < |sys.monitors| ==> sys.monitors[i] == Poked(old(sys.monitors)[i])
    {
      hide Enabled, Next;
      ghost var before := sys;
      run := [];
      ScanStep(sys, w);
      Take(StartScan(w), before, run);
      run := run + [StartScan(w)];
      var todo := Fifos(sys);
      ListStep(sys, w, Fifos(before), todo);
      Take(EndScan(w, todo), before, run);
      run := run + [EndScan(w, todo)];
      while todo != {}
        invariant Legal(before, run) && Exec(before, run) == sys
        invariant sys == before.(monitors := sys.monitors, writers := before.writers[w := Waking(todo)])
        invariant |sys.monitors| == |before.monitors| && todo <= Fifos(before)
        invariant forall i :: 0 <= i < |sys.monitors| ==>
          sys.monitors[i] == if i in todo then before.monitors[i] else Poked(before.monitors[i])
        decreases todo
      {
        var m :| m in todo;
        ghost var one := WakeOne(w, m, todo);
        RunConcat(before, run, one);
        run := run + one;
        todo := todo - {m};
      }
      FinishStep(sys, w);
      Take(Finish(w), before, run);
      run := run + [Finish(w)];
    }

    /** `wpctl` and `set-graph`: work out the new state, replace the file, wake
        every monitor; a refused call touches nothing. */
    method RunWriter(w: nat) returns (code: int, ghost run: seq<Action>)
      requires w < |sys.writers| && sys.writers[w].Launched?
      modifies this
      ensures Legal(old(sys), run) && Exec(old(sys), run) == sys
      ensures sys.writers == old(sys.writers)[w := Exited(code)]
      ensures var change := old(sys.writers[w]).change;
              var next := if change.SetGraph? then Ok(InitialState(change.kind))
                          else Apply(old(sys.file), change.command);
              match next
              case Ok(file) =>
                && code == 0 && sys.file == file
                && |sys.monitors| == |old(sys.monitors)|
                && forall i :: 0 <= i < |sys.monitors| ==> sys.monitors[i] == Poked(old(sys.monitors)[i])
              case Err(status) =>
                code == status && sys.file == old(sys.file) && sys.monitors == old(sys.monitors)
    {
      ghost var before := sys;
      var edited: Result<AudioState, int>;
      match sys.writers[w].change {
        case SetGraph(kind) => edited := Ok(InitialState(kind));
        case Wpctl(command) => edited := EditState(sys.file, command);
      }
      Take(Decide(w), before, []);
      run := [] + [Decide(w)];
      if edited.Err? {
        code := edited.error;
      } else {
        assert sys.writers[w] == Ready(edited.value);
        Take(Commit(w), before, run);
        run := run + [Commit(w)];
        ghost var waking := WakeMonitors(w);
        RunConcat(before, run, waking);
        run := run + waking;
        code := 0;
      }
    }

    /** One turn of the monitor's loop: read up to 64 bytes, print again. */
    method MonitorTurn(i: nat) returns (ghost run: seq<Action>)
      requires Inv(sys) && i < |sys.monitors|
      requires sys.monitors[i].phase == Waiting && sys.monitors[i].pending > 0
      modifies this
      ensures Legal(old(sys), run) && Exec(old(sys), run) == sys
      ensures Graph(sys.file, sys.dump).Some?
      ensures var had := old(sys.monitors[i].pending);
              var turned := Monitor(Waiting, if had <= 64 then 0 else had - 64, Graph(sys.file, sys.dump));
              sys == old(sys).(monitors := old(sys.monitors)[i := turned])
    {
      hide Enabled, Next;
      ghost var before := sys;
      GraphReportsState(sys.file, sys.dump);
      TurnSteps(sys, i);
      Take(Drain(i), before, []);
      run := [] + [Drain(i)];
      Take(ReadState(i), before, run);
      run := run + [ReadState(i)];
      Take(Print(i), before, run);
      run := run + [Print(i)];
    }
  }

  lemma {:induction false} RunConcat(s: System, run: seq<Action>, more: seq<Action>)
    requires Legal(s, run) && Legal(Exec(s, run), more)
    ensures Legal(s, run + more) && Exec(s, run + more) == Exec(Exec(s, run), more)
    decreases |run|
  {
    if run == [] {
      assert run + more == more;
    } else {
      assert (run + more)[1..] == run[1..] + more;
      RunConcat(Next(s, run[0]), run[1..], more);
    }
  }
}
