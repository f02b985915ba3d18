/** The fake sound server's state, the graph printed from it and the changes
    `wpctl` and `set-graph` make to it (scripts/behavior/fake_audio.py). */
module FakeAudio {
  import opened Wrappers
  import opened Rounding

  datatype GraphKind = Pair | Laptop | NoOutput

  datatype Node = Speakers | Hdmi | BuiltIn {
    function Id(): int {
      match this
      case Speakers => 61
      case Hdmi => 62
      case BuiltIn => 52
    }
  }

  datatype AudioState = AudioState(
    kind: GraphKind,
    defaultSink: Option<Node>,
    volume: map<Node, real>,
    muted: map<Node, bool>
  )

  function InitialState(kind: GraphKind): AudioState {
    match kind
    case Pair =>
      AudioState(Pair, Some(Speakers), map[Speakers := 0.5, Hdmi := 0.7], map[Speakers := false, Hdmi := false])
    case Laptop => AudioState(Laptop, Some(BuiltIn), map[BuiltIn := 0.3], map[BuiltIn := false])
    case NoOutput => AudioState(NoOutput, None, map[BuiltIn := 0.3], map[BuiltIn := false])
  }

  /** The outputs a state offers, in listing order. */
  function Sinks(state: AudioState): seq<Node> {
    match state.kind
    case Pair => [Speakers, Hdmi]
    case Laptop => [BuiltIn]
    case NoOutput => []
  }

  /** What every state file ever written satisfies: the levels of the kind's
      own nodes, in range, and a default that is one of the offered outputs. */
  ghost predicate WellFormed(state: AudioState) {
    && state.volume.Keys == state.muted.Keys == (if state.kind == Pair then {Speakers, Hdmi} else {BuiltIn})
    && (forall n :: n in state.volume ==> 0.0 <= state.volume[n] <= 1.5)
    && (state.defaultSink == None <==> Sinks(state) == [])
    && (state.defaultSink.Some? ==> state.defaultSink.value in Sinks(state))
  }

  // ---------------------------------------------------------------- wpctl

  /** A `wpctl` node argument; `Other` is any text that names no output. */
  datatype Target = DefaultAlias | Numbered(id: int) | Other

  /** What Python's `float` makes of the volume argument. */
  datatype Level = Finite(value: real) | PlusInfinity | MinusInfinity | NotANumber | Unparsable

  datatype MuteValue = Toggle | On | Off

  /** One `wpctl` command line. */
  datatype Command =
    | TooFewArguments
    | SetDefault(target: Target)
    | SetVolume(target: Target, level: Level)
    | SetMute(target: Target, mute: MuteValue)
    | Unsupported(target: Target)

  /** What becomes of a mute setting. */
  function Muted(value: MuteValue, was: bool): bool {
    match value
    case Toggle => !was
    case On => true
    case Off => false
  }

  function Find(sinks: seq<Node>, id: int): (r: Option<Node>)
    ensures r.Some? ==> r.value in sinks && r.value.Id() == id
    ensures r.None? ==> forall n :: n in sinks ==> n.Id() != id
  {
    if sinks == [] then None
    else if sinks[0].Id() == id then Some(sinks[0])
    else Find(sinks[1..], id)
  }

  /** What a target names: the default, an output of the graph by its number, or
      nothing. */
  lemma TargetNames(state: AudioState, id: int)
    ensures NodeName(state, DefaultAlias) == state.defaultSink && NodeName(state, Other) == None
    ensures NodeName(state, Numbered(id)) == match state.kind
            case Pair => (if id == 61 then Some(Speakers) else if id == 62 then Some(Hdmi) else None)
            case Laptop => (if id == 52 then Some(BuiltIn) else None)
            case NoOutput => None
  {
    assert [Speakers, Hdmi][1..] == [Hdmi] && [Hdmi][1..] == [] && [BuiltIn][1..] == [];
  }

  function NodeName(state: AudioState, target: Target): Option<Node> {
    match target
    case DefaultAlias => state.defaultSink
    case Numbered(id) => Find(Sinks(state), id)
    case Other => None
  }

  /** `max(0.0, min(1.5, x))`; Python's `min` keeps 1.5 when `x` is no number. */
  function Clamp(level: Level): (v: real)
    requires !level.Unparsable?
    ensures 0.0 <= v <= 1.5
    ensures level.Finite? && 0.0 <= level.value <= 1.5 ==> v == level.value
    ensures level.PlusInfinity? || level.NotANumber? || (level.Finite? && level.value >= 1.5) ==> v == 1.5
    ensures level.MinusInfinity? || (level.Finite? && level.value <= 0.0) ==> v == 0.0
  {
    match level
    case Finite(x) =>
      var capped := if x < 1.5 then x else 1.5;
      if capped > 0.0 then capped else 0.0
    case PlusInfinity => 1.5
    case MinusInfinity => 0.0
    case NotANumber => 1.5
  }

  /** The new state, or the exit code of a call that changes nothing. An
      uncaught exception (unparsable level, missing key) exits with 1. */
  function Apply(state: AudioState, command: Command): Result<AudioState, int> {
    if command.TooFewArguments? then Err(2) else
    match NodeName(state, command.target)
    case None => Err(1)
    case Some(name) =>
      match command
      case SetDefault(_) => Ok(state.(defaultSink := Some(name)))
      case SetVolume(_, level) =>
        if level.Unparsable? then Err(1) else Ok(state.(volume := state.volume[name := Clamp(level)]))
      case SetMute(_, Toggle) =>
        if name !in state.muted then Err(1) else Ok(state.(muted := state.muted[name := !state.muted[name]]))
      case SetMute(_, value) => Ok(state.(muted := state.muted[name := value == On]))
      case Unsupported(_) => Err(2)
  }

  lemma InitialWellFormed(kind: GraphKind)
    ensures WellFormed(InitialState(kind))
    ensures kind != Pair ==> InitialState(kind).volume == map[BuiltIn := 0.3]
    ensures forall n :: n in InitialState(kind).muted ==> !InitialState(kind).muted[n]
  {
  }

  lemma ApplyWellFormed(state: AudioState, command: Command)
    requires WellFormed(state)
    ensures Apply(state, command).Ok? ==>
              && WellFormed(Apply(state, command).value)
              && Apply(state, command).value.kind == state.kind
  {
  }

  /** The exit code of a refused call: 2 for one that is short or unsupported,
      1 for an unknown node (checked before the command) or an unparsable level. */
  function RefusalOf(state: AudioState, command: Command): Option<int> {
    if command.TooFewArguments? then Some(2)
    else if NodeName(state, command.target).None? then Some(1)
    else if command.Unsupported? then Some(2)
    else if command.SetVolume? && command.level.Unparsable? then Some(1)
    else None
  }

  /** A call is refused exactly for these reasons, and a graph without outputs
      refuses every call. */
  lemma ApplyRefuses(state: AudioState, command: Command)
    requires WellFormed(state)
    ensures Apply(state, command).Err? <==> RefusalOf(state, command).Some?
    ensures Apply(state, command).Err? ==> RefusalOf(state, command) == Some(Apply(state, command).error)
    ensures state.kind == NoOutput ==> Apply(state, command).Err?
  {
    if !command.TooFewArguments? && NodeName(state, command.target).Some? {
      assert NodeName(state, command.target).value in Sinks(state);
    }
  }

  /** Each accepted command changes its own setting of its own node only. */
  lemma ApplyFrame(state: AudioState, command: Command, n: Node)
    requires WellFormed(state) && Apply(state, command).Ok? && n in state.volume
    ensures var after := Apply(state, command).value; var name := NodeName(state, command.target).value;
            && (after.defaultSink == if command.SetDefault? then Some(name) else state.defaultSink)
            && (after.volume[n] == if command.SetVolume? && n == name then Clamp(command.level) else state.volume[n])
            && (after.muted[n] == if command.SetMute? && n == name then Muted(command.mute, state.muted[n])
                                  else state.muted[n])
  {
  }

  /** `wpctl`: edits a copy of the state entry by entry. From a well-formed
      state it refuses for the reasons above only, and otherwise leaves a
      well-formed state that differs in the command's own entry at most. */
  method EditState(state: AudioState, command: Command) returns (r: Result<AudioState, int>)
    ensures r == Apply(state, command)
    ensures WellFormed(state) ==>
              match r
              case Err(code) => RefusalOf(state, command) == Some(code)
              case Ok(after) =>
                && RefusalOf(state, command).None? && WellFormed(after) && after.kind == state.kind
                && var name := NodeName(state, command.target).value;
                   && name in Sinks(state)
                   && after.defaultSink == (if command.SetDefault? then Some(name) else state.defaultSink)
                   && (command.SetVolume? ==> after.volume[name] == Clamp(command.level))
                   && (command.SetMute? ==> after.muted[name] == Muted(command.mute, state.muted[name]))
                   && forall n :: n in state.volume ==>
                        && (n != name || !command.SetVolume? ==> after.volume[n] == state.volume[n])
                        && (n != name || !command.SetMute? ==> after.muted[n] == state.muted[n])
  {
    if command.TooFewArguments? {
      return Err(2);
    }
    var named := NodeName(state, command.target);
    if named.None? {
      return Err(1);
    }
    var name, edited := named.value, state;
    match command {
      case SetDefault(_) =>
        edited := edited.(defaultSink := Some(name));
      case SetVolume(_, level) =>
        if level.Unparsable? {
          return Err(1);
        }
        edited := edited.(volume := edited.volume[name := Clamp(level)]);
      case SetMute(_, value) =>
        if value == Toggle && name !in edited.muted {
          return Err(1);
        }
        edited := edited.(muted := edited.muted[name := if value == Toggle then !edited.muted[name] else value == On]);
      case Unsupported(_) =>
        return Err(2);
    }
    r := Ok(edited);
    assert r == Apply(state, command);
    if WellFormed(state) {
      ApplyWellFormed(state, command);
      ApplyRefuses(state, command);
    }
  }

  lemma ToggleTwice(state: AudioState, target: Target)
    requires WellFormed(state) && NodeName(state, target).Some?
    ensures Apply(state, SetMute(target, Toggle)).Ok?
    ensures Apply(Apply(state, SetMute(target, Toggle)).value, SetMute(target, Toggle)) == Ok(state)
  {
    var name := NodeName(state, target).value;
    assert name in Sinks(state);
    var once := state.(muted := state.muted[name := !state.muted[name]]);
    assert NodeName(once, target) == Some(name);
    assert once.muted[name := !once.muted[name]] == state.muted;
  }

  // ----------------------------------------------------------- the printed graph

  datatype Entry = DefaultEntry(sink: Option<Node>) | OtherEntry(tag: int)

  /** One object of a `pw-dump`: an output node, the default metadata, or
      anything else, which is printed as it stands. */
  datatype Object =
    | SinkObject(node: Node, volumes: seq<real>, mute: bool)
    | Metadata(entries: seq<Entry>)
    | OtherObject(tag: int)

  /** A channel level of the graph: the cube of the `wpctl` level, to six
      decimal places. */
  predicate IsLinear(level: real, linear: real) {
    RoundedTo(level * level * level, 1_000_000, linear)
  }

  function Linear(volume: real): (linear: real)
    ensures IsLinear(volume, linear)
  {
    Round6(volume * volume * volume)
  }

  function PairGraph(state: AudioState): Option<seq<Object>> {
    if Speakers in state.volume && Speakers in state.muted && Hdmi in state.volume && Hdmi in state.muted then
      Some([ Metadata([DefaultEntry(state.defaultSink)]),
             SinkObject(Speakers, Channels(state, Speakers, 2), state.muted[Speakers]),
             SinkObject(Hdmi, Channels(state, Hdmi, 2), state.muted[Hdmi]) ])
    else
      None
  }

  function Channels(state: AudioState, n: Node, count: nat): (v: seq<real>)
    requires n in state.volume
  {
    seq(count, _ => Linear(state.volume[n]))
  }

  function OtherEntries(entries: seq<Entry>): seq<Entry> {
    if entries == [] then []
    else if entries[0].DefaultEntry? then OtherEntries(entries[1..])
    else [entries[0]] + OtherEntries(entries[1..])
  }

  /** What becomes of one object of the recorded laptop dump: dropped (`[]`),
      edited or kept; `None` is a missing level. */
  function Edited(state: AudioState, item: Object): Option<seq<Object>> {
    match item
    case SinkObject(node, volumes, _) =>
      if state.kind != Laptop then Some([])
      else if node !in state.volume || node !in state.muted then None
      else Some([SinkObject(node, Channels(state, node, |volumes|), state.muted[node])])
    case Metadata(entries) =>
      var announced := if state.defaultSink.Some? then [DefaultEntry(state.defaultSink)] else [];
      Some([Metadata(announced + OtherEntries(entries))])
    case OtherObject(_) => Some([item])
  }

  function EditedDump(state: AudioState, dump: seq<Object>): Option<seq<Object>> {
    if dump == [] then Some([]) else
    match Edited(state, dump[0])
    case None => None
    case Some(first) => After(first, EditedDump(state, dump[1..]))
  }

  function After(first: seq<Object>, rest: Option<seq<Object>>): Option<seq<Object>> {
    match rest
    case None => None
    case Some(objects) => Some(first + objects)
  }

  lemma AfterTwice(first: seq<Object>, second: seq<Object>, rest: Option<seq<Object>>)
    ensures After([], rest) == rest
    ensures After(first, After(second, rest)) == After(first + second, rest)
  {
    if rest.Some? {
      assert [] + rest.value == rest.value;
      assert first + (second + rest.value) == first + second + rest.value;
    }
  }

  function Graph(state: AudioState, dump: seq<Object>): Option<seq<Object>> {
    if state.kind == Pair then PairGraph(state) else EditedDump(state, dump)
  }

  /** `real_graph`: one pass over a copy of the recorded dump. */
  method RealGraph(state: AudioState, dump: seq<Object>) returns (result: Option<seq<Object>>)
    ensures result == EditedDump(state, dump)
  {
    var printed: seq<Object> := [];
    assert dump[0..] == dump;
    AfterTwice([], [], EditedDump(state, dump));
    for i := 0 to |dump|
      invariant EditedDump(state, dump) == After(printed, EditedDump(state, dump[i..]))
    {
      assert dump[i..][1..] == dump[i + 1..];
      var part := [];
      match dump[i] {
        case SinkObject(node, volumes, _) =>
          if state.kind == Laptop {
            if node !in state.volume || node !in state.muted {
              return None;
            }
            part := [SinkObject(node, Channels(state, node, |volumes|), state.muted[node])];
          }
        case Metadata(entries) =>
          var kept := OtherEntries(entries);
          if state.defaultSink.Some? {
            kept := [DefaultEntry(state.defaultSink)] + kept;
          }
          assert state.defaultSink.None? ==> [] + kept == kept;
          part := [Metadata(kept)];
        case OtherObject(_) =>
          part := [dump[i]];
      }
      assert Edited(state, dump[i]) == Some(part);
      AfterTwice(printed, part, EditedDump(state, dump[i + 1..]));
      printed := printed + part;
    }
    assert printed + [] == printed;
    return Some(printed);
  }

  // A reader of the graph, written independently of the printer.

  /** What `read` finds in each object, in order. */
  function Collect<T>(graph: seq<Object>, read: Object -> seq<T>): seq<T> {
    if graph == [] then [] else read(graph[0]) + Collect(graph[1..], read)
  }

  lemma {:induction false} CollectAppend<T>(a: seq<Object>, b: seq<Object>, read: Object -> seq<T>)
    ensures Collect(a + b, read) == Collect(a, read) + Collect(b, read)
  {
    if a == [] {
      assert a + b == b;
    } else {
      assert (a + b)[0] == a[0] && (a + b)[1..] == a[1..] + b;
      CollectAppend(a[1..], b, read);
    }
  }

  lemma CollectOne<T>(item: Object, read: Object -> seq<T>)
    ensures Collect([item], read) == read(item)
  {
    assert [item][1..] == [];
  }

  /** The default outputs a graph announces, in order. */
  function Announced(graph: seq<Object>): seq<Option<Node>> {
    Collect(graph, DefaultsOf)
  }

  function DefaultsOf(item: Object): seq<Option<Node>> {
    if item.Metadata? then DefaultsIn(item.entries) else []
  }

  function DefaultsIn(entries: seq<Entry>): seq<Option<Node>> {
    if entries == [] then []
    else (if entries[0].DefaultEntry? then [entries[0].sink] else []) + DefaultsIn(entries[1..])
  }

  /** An output as a reader of the graph sees it. */
  datatype NodeReport = NodeReport(node: Node, mute: bool, volumes: seq<real>)

  /** The output nodes a graph lists, in order. */
  function Listed(graph: seq<Object>): seq<NodeReport> {
    Collect(graph, ReportsOf)
  }

  function ReportsOf(item: Object): seq<NodeReport> {
    if item.SinkObject? then [NodeReport(item.node, item.mute, item.volumes)] else []
  }

  /** The report gives the output's mute and, on every channel, its level. */
  ghost predicate Shows(state: AudioState, node: Node, channels: nat, r: NodeReport) {
    && r.node == node && node in state.volume && node in state.muted
    && r.mute == state.muted[node] && |r.volumes| == channels
    && forall i :: 0 <= i < channels ==> IsLinear(state.volume[node], r.volumes[i])
  }

  /** The unrelated entries of the default metadata, in order. */
  function Settings(graph: seq<Object>): seq<int> {
    Collect(graph, SettingsOf)
  }

  function SettingsOf(item: Object): seq<int> {
    if item.Metadata? then SettingsIn(item.entries) else []
  }

  function SettingsIn(entries: seq<Entry>): seq<int> {
    if entries == [] then []
    else (if entries[0].OtherEntry? then [entries[0].tag] else []) + SettingsIn(entries[1..])
  }

  /** The unrelated objects, in order. */
  function Untouched(graph: seq<Object>): seq<int> {
    Collect(graph, TagsOf)
  }

  function TagsOf(item: Object): seq<int> {
    if item.OtherObject? then [item.tag] else []
  }

  /** The shape of the recorded laptop dump: one output and one default
      metadata. */
  ghost predicate LaptopDump(dump: seq<Object>) {
    && |Listed(dump)| == 1
    && (forall o :: o in dump && o.SinkObject? ==> o.node == BuiltIn)
    && MetadataCount(dump) == 1
  }

  function MetadataCount(graph: seq<Object>): nat {
    if graph == [] then 0 else (if graph[0].Metadata? then 1 else 0) + MetadataCount(graph[1..])
  }

  /** A default, where there is one, is announced in the first place. */
  ghost predicate DefaultFirst(state: AudioState, graph: seq<Object>) {
    forall o :: o in graph && o.Metadata? && state.defaultSink.Some? ==>
      o.entries != [] && o.entries[0] == DefaultEntry(state.defaultSink)
  }

  /** Printing a well-formed state never fails, and a reader of the graph finds
      the state's default, its outputs with their mute and level, and every
      unrelated object and setting of the recorded dump, in order. */
  lemma GraphReportsState(state: AudioState, dump: seq<Object>)
    requires WellFormed(state) && LaptopDump(dump)
    ensures Graph(state, dump).Some?
    ensures var g := Graph(state, dump).value;
            && Announced(g) == (if state.defaultSink.Some? then [state.defaultSink] else [])
            && DefaultFirst(state, g)
            && match state.kind
               case Pair =>
                 && |Listed(g)| == 2 && Shows(state, Speakers, 2, Listed(g)[0]) && Shows(state, Hdmi, 2, Listed(g)[1])
                 && Untouched(g) == [] && Settings(g) == []
               case Laptop =>
                 && |Listed(g)| == 1 && Shows(state, BuiltIn, |Listed(dump)[0].volumes|, Listed(g)[0])
                 && Untouched(g) == Untouched(dump) && Settings(g) == Settings(dump)
               case NoOutput =>
                 Listed(g) == [] && Untouched(g) == Untouched(dump) && Settings(g) == Settings(dump)
  {
    if state.kind == Pair {
      PairGraphReports(state);
    } else {
      EditedDumpReports(state, dump);
      var one := if state.defaultSink.Some? then [state.defaultSink] else [];
      assert Repeat(one, 1) == one + Repeat(one, 0) == one;
    }
  }

  lemma PairGraphReports(state: AudioState)
    requires WellFormed(state) && state.kind == Pair
    ensures PairGraph(state).Some?
    ensures var g := PairGraph(state).value;
            && Announced(g) == [state.defaultSink] && DefaultFirst(state, g)
            && |Listed(g)| == 2 && Shows(state, Speakers, 2, Listed(g)[0]) && Shows(state, Hdmi, 2, Listed(g)[1])
            && Untouched(g) == [] && Settings(g) == []
  {
    hide Linear, IsLinear;
    var g := PairGraph(state).value;
    ThreeObjects(g, DefaultsOf);
    ThreeObjects(g, ReportsOf);
    ThreeObjects(g, TagsOf);
    ThreeObjects(g, SettingsOf);
    var entries := g[0].entries;
    assert entries[1..] == [];
    assert DefaultsIn(entries) == [entries[0].sink] && SettingsIn(entries) == [];
  }

  lemma ThreeObjects<T>(g: seq<Object>, read: Object -> seq<T>)
    requires |g| == 3
    ensures Collect(g, read) == read(g[0]) + read(g[1]) + read(g[2])
  {
    assert g == [g[0]] + ([g[1]] + [g[2]]);
    CollectAppend([g[0]], [g[1]] + [g[2]], read);
    CollectAppend([g[1]], [g[2]], read);
    CollectOne(g[0], read);
    CollectOne(g[1], read);
    CollectOne(g[2], read);
  }

  /** The same for any part of the dump, however many objects it has. */
  lemma EditedDumpReports(state: AudioState, dump: seq<Object>)
    requires WellFormed(state) && state.kind != Pair
    requires forall o :: o in dump && o.SinkObject? ==> o.node == BuiltIn
    ensures EditedDump(state, dump).Some?
    ensures var g := EditedDump(state, dump).value;
            && Announced(g) == Repeat(if state.defaultSink.Some? then [state.defaultSink] else [], MetadataCount(dump))
            && DefaultFirst(state, g)
            && |Listed(g)| == (if state.kind == Laptop then |Listed(dump)| else 0)
            && (forall i :: 0 <= i < |Listed(g)| ==>
                  Shows(state, BuiltIn, |Listed(dump)[i].volumes|, Listed(g)[i]))
            && Untouched(g) == Untouched(dump) && Settings(g) == Settings(dump)
  {
    hide Edited, WellFormed, DefaultFirst, Shows;
    EditedDefaults(state, dump);
    EditedNodes(state, dump);
    forall o | o in dump
      ensures Edited(state, o).Some?
      ensures Collect(Edited(state, o).value, TagsOf) == TagsOf(o)
      ensures Collect(Edited(state, o).value, SettingsOf) == SettingsOf(o)
    {
      EditedReports(state, o);
    }
    EditedKeeps(state, dump, TagsOf);
    EditedKeeps(state, dump, SettingsOf);
  }

  lemma {:induction false} EditedDefaults(state: AudioState, dump: seq<Object>)
    requires WellFormed(state) && state.kind != Pair
    requires forall o :: o in dump && o.SinkObject? ==> o.node == BuiltIn
    ensures EditedDump(state, dump).Some?
    ensures var g := EditedDump(state, dump).value;
            && Announced(g) == Repeat(if state.defaultSink.Some? then [state.defaultSink] else [], MetadataCount(dump))
            && DefaultFirst(state, g)
  {
    hide Edited, DefaultsOf, DefaultsIn, OtherEntries, WellFormed, Sinks, Listed, Untouched, Settings, Shows;
    if dump != [] {
      EditedDefaults(state, dump[1..]);
      EditedReports(state, dump[0]);
      CollectAppend(Edited(state, dump[0]).value, EditedDump(state, dump[1..]).value, DefaultsOf);
    }
  }

  lemma {:induction false} EditedNodes(state: AudioState, dump: seq<Object>)
    requires WellFormed(state) && state.kind != Pair
    requires forall o :: o in dump && o.SinkObject? ==> o.node == BuiltIn
    requires EditedDump(state, dump).Some?
    ensures var g := EditedDump(state, dump).value;
            && |Listed(g)| == (if state.kind == Laptop then |Listed(dump)| else 0)
            && forall i :: 0 <= i < |Listed(g)| ==> Shows(state, BuiltIn, |Listed(dump)[i].volumes|, Listed(g)[i])
  {
    hide Edited, Sinks, WellFormed, Announced, Untouched, Settings, Shows, DefaultFirst;
    if dump != [] {
      EditedNodes(state, dump[1..]);
      EditedReports(state, dump[0]);
      CollectAppend(Edited(state, dump[0]).value, EditedDump(state, dump[1..]).value, ReportsOf);
    }
  }

  /** What is kept in each object is kept in the dump. */
  lemma {:induction false} EditedKeeps<T>(state: AudioState, dump: seq<Object>, read: Object -> seq<T>)
    requires forall o :: o in dump ==> Edited(state, o).Some? && Collect(Edited(state, o).value, read) == read(o)
    requires EditedDump(state, dump).Some?
    ensures Collect(EditedDump(state, dump).value, read) == Collect(dump, read)
  {
    hide Edited;
    if dump != [] {
      EditedKeeps(state, dump[1..], read);
      CollectAppend(Edited(state, dump[0]).value, EditedDump(state, dump[1..]).value, read);
    }
  }

  lemma EditedReports(state: AudioState, item: Object)
    requires WellFormed(state) && state.kind != Pair
    requires item.SinkObject? ==> item.node == BuiltIn
    ensures Edited(state, item).Some?
    ensures var g := Edited(state, item).value;
            && Announced(g) == (if item.Metadata? && state.defaultSink.Some? then [state.defaultSink] else [])
            && DefaultFirst(state, g)
            && |Listed(g)| == (if item.SinkObject? && state.kind == Laptop then 1 else 0)
            && (|Listed(g)| == 1 ==> Shows(state, BuiltIn, |item.volumes|, Listed(g)[0]))
            && Untouched(g) == TagsOf(item) && Settings(g) == SettingsOf(item)
  {
    hide Linear, IsLinear;
    var g := Edited(state, item).value;
    if g != [] {
      CollectOne(g[0], DefaultsOf);
      CollectOne(g[0], ReportsOf);
      CollectOne(g[0], TagsOf);
      CollectOne(g[0], SettingsOf);
    }
    if item.Metadata? {
      OthersKept(item.entries);
      var others := OtherEntries(item.entries);
      assert state.defaultSink.Some? ==> g[0].entries[1..] == others;
      assert state.defaultSink.None? ==> g[0].entries == others;
    }
  }

  function Repeat<T>(part: seq<T>, times: nat): seq<T> {
    if times == 0 then [] else part + Repeat(part, times - 1)
  }

  lemma {:induction false} OthersKept(entries: seq<Entry>)
    ensures DefaultsIn(OtherEntries(entries)) == [] && SettingsIn(OtherEntries(entries)) == SettingsIn(entries)
  {
    if entries != [] {
      OthersKept(entries[1..]);
      if !entries[0].DefaultEntry? {
        var others := OtherEntries(entries[1..]);
        assert ([entries[0]] + others)[1..] == others;
      }
    }
  }

  /** The initial graphs, in numbers: two outputs at an eighth and at 0.343 of
      full power, the first the default, or the laptop's own at 0.027. */
  lemma InitialLevels(dump: seq<Object>)
    requires LaptopDump(dump)
    ensures var g := Graph(InitialState(Pair), dump);
            && g.Some? && Announced(g.value) == [Some(Speakers)]
            && Listed(g.value) == [NodeReport(Speakers, false, [0.125, 0.125]), NodeReport(Hdmi, false, [0.343, 0.343])]
    ensures var g := Graph(InitialState(Laptop), dump);
            && g.Some? && Announced(g.value) == [Some(BuiltIn)]
            && |Listed(g.value)| == 1 && Listed(g.value)[0].node == BuiltIn && !Listed(g.value)[0].mute
            && |Listed(g.value)[0].volumes| == |Listed(dump)[0].volumes|
            && forall v :: v in Listed(g.value)[0].volumes ==> v == 0.027
    ensures var g := Graph(InitialState(NoOutput), dump); g.Some? && Announced(g.value) == [] && Listed(g.value) == []
  {
    hide Listed, Announced, Graph, IsLinear, Untouched, Settings;
    InitialWellFormed(Pair);
    InitialWellFormed(Laptop);
    InitialWellFormed(NoOutput);
    GraphReportsState(InitialState(Pair), dump);
    GraphReportsState(InitialState(Laptop), dump);
    GraphReportsState(InitialState(NoOutput), dump);
    LevelIs(0.5, 125_000);
    LevelIs(0.7, 343_000);
    LevelIs(0.3, 27_000);
    var pair := Listed(Graph(InitialState(Pair), dump).value);
    assert pair[0].volumes == [0.125, 0.125] && pair[1].volumes == [0.343, 0.343];
  }

  lemma LevelIs(level: real, millionths: int)
    requires level * level * level * 1000000.0 == millionths as real
    ensures forall linear :: IsLinear(level, linear) ==> linear == millionths as real / 1000000.0
  {
    var exact := millionths as real / 1000000.0;
    assert exact * 1000000.0 == millionths as real;
    assert Nearest(level * level * level * 1000000.0, millionths);
    forall linear | IsLinear(level, linear)
      ensures linear == exact
    {
      RoundedOnce(level * level * level, 1_000_000, linear, exact);
    }
  }
}
