/** The Tab-order explorer of the accessibility audit and the checks on what it
    finds (scripts/a11y/orca_audit.py:675-717 and 800-811,
    scripts/a11y/orca_checks.py:199-250). */
module TabCycle {
  import opened Wrappers

  const MAX_TAB: nat := 45

  /** A focused object as the audit sees it. */
  datatype Stop = Stop(key: string, role: string, parent: string)

  const GENERIC_ROLES: set<string> :=
    { "panel", "filler", "unknown", "section", "invalid", "redundant object",
      "layered pane", "scroll pane", "grouping", "group", "generic" }
  const ITEM_ROLES: set<string> := { "list item", "tree item", "table row", "table cell" }
  const ARROW_CONTAINERS: set<string> :=
    { "list", "list box", "tree", "table", "tree table", "menu", "menu bar", "radio group",
      "page tab list", "tool bar" }

  /** The application under audit, unknown but for being deterministic: where
      Tab goes from a focus, and where focus is after a stop was probed. */
  datatype App = App(tab: Option<string> -> Option<Stop>, probed: Stop -> Option<Stop>)

  datatype Outcome = Limit | Lost | Stuck | Cycle | Subcycle | Single | ProbeLeftFocus

  function KeyOf(s: Option<Stop>): Option<string> {
    if s.None? then None else Some(s.value.key)
  }

  predicate ProbeKeptTabStop(stop: Stop, after: Option<Stop>) {
    after.Some? &&
    (after.value.key == stop.key
     || (stop.role in ARROW_CONTAINERS && after.value.role in ITEM_ROLES && after.value.parent == stop.key))
  }

  predicate Kept(app: App, probe: bool, s: Stop) {
    probe ==> ProbeKeptTabStop(s, app.probed(s))
  }

  /** The focus Tab is pressed from once stop `s` has been dealt with. */
  function Leaving(app: App, probe: bool, s: Stop): Option<string> {
    if probe then KeyOf(app.probed(s)) else Some(s.key)
  }

  /** Focus is on the window, or on a container that is no control. */
  predicate FromWindow(start: Option<Stop>) {
    start.None? || start.value.role in {"frame", "window", "dialog"} + GENERIC_ROLES
  }

  /** `tab_cycle`. */
  method Explore(app: App, start: Option<Stop>, probe: bool) returns (stops: seq<Stop>, outcome: Outcome)
    ensures Finished(app, probe, start, stops, outcome)
  {
    hide Walking, Finished, FromWindow, ProbeKeptTabStop;
    stops := [];
    var keys: seq<string> := [];
    var previous, at := start, KeyOf(start);
    NoPressYet(app, probe, start);
    for presses := 0 to MAX_TAB
      invariant |stops| == |keys| == presses
      invariant Walking(app, probe, start, stops, keys, previous, at)
    {
      var focus := app.tab(at);
      if focus.None? {
        EndLost(app, probe, start, stops, keys, previous, at);
        return stops, Lost;
      }
      var key := focus.value.key;
      if KeyOf(previous) == Some(key) {
        EndStuck(app, probe, start, stops, keys, previous, at, focus.value);
        if stops == [] {
          stops := [focus.value];
        }
        return stops, Stuck;
      }
      if KeyOf(start) == Some(key) && stops != [] {
        EndAtStart(app, probe, start, stops, keys, previous, at, focus.value);
        return stops, Cycle;
      }
      if key in keys {
        EndAgain(app, probe, start, stops, keys, previous, at, focus.value);
        outcome := if key == keys[0] && FromWindow(start) then Cycle else Subcycle;
        if |keys| == 1 {
          outcome := Single;
        }
        return stops, outcome;
      }
      PressOn(app, probe, start, stops, keys, previous, at, focus.value);
      stops := stops + [focus.value];
      keys := keys + [key];
      at := Some(key);
      if probe {
        var after := app.probed(focus.value);
        if !ProbeKeptTabStop(focus.value, after) {
          return stops, ProbeLeftFocus;
        }
        at := KeyOf(after);
      }
      previous := focus;
    }
    EndLimit(app, probe, start, stops, keys, previous, at);
    return stops, Limit;
  }

  /** What the loop of `tab_cycle` knows before each press. */
  ghost predicate Walking(app: App, probe: bool, start: Option<Stop>, stops: seq<Stop>, keys: seq<string>,
                          previous: Option<Stop>, at: Option<string>) {
    && Explored(app, probe, start, stops)
    && |keys| == |stops| && (forall i :: 0 <= i < |keys| ==> keys[i] == stops[i].key)
    && previous == Before(start, stops)
    && app.tab(at) == Trail(app, probe, start, |stops| + 1)
  }

  lemma NoPressYet(app: App, probe: bool, start: Option<Stop>)
    ensures Walking(app, probe, start, [], [], start, KeyOf(start))
  {
  }

  lemma PressOn(app: App, probe: bool, start: Option<Stop>, stops: seq<Stop>, keys: seq<string>,
                previous: Option<Stop>, at: Option<string>, s: Stop)
    requires Walking(app, probe, start, stops, keys, previous, at) && |stops| < MAX_TAB && app.tab(at) == Some(s)
    requires KeyOf(previous) != Some(s.key) && !(KeyOf(start) == Some(s.key) && stops != []) && s.key !in keys
    ensures !probe || ProbeKeptTabStop(s, app.probed(s)) ==>
              Walking(app, probe, start, stops + [s], keys + [s.key], Some(s),
                      if probe then KeyOf(app.probed(s)) else Some(s.key))
    ensures probe && !ProbeKeptTabStop(s, app.probed(s)) ==>
              Finished(app, probe, start, stops + [s], ProbeLeftFocus)
  {
    hide Explored, Fresh, Trail, Finished, ProbeKeptTabStop;
    assert forall i :: 0 <= i < |stops| ==> keys[i] in keys;
    OneMore(app, probe, start, stops, s);
    assert (stops + [s])[..|stops|] == stops;
    if !Kept(app, probe, s) {
      EndProbed(app, probe, start, stops + [s]);
    }
  }

  /** The focus Tab was last pressed on. */
  function Before(start: Option<Stop>, stops: seq<Stop>): Option<Stop> {
    if stops == [] then start else Some(stops[|stops| - 1])
  }

  // ------------------------------------------------------------ what it finds

  /** The focus after the `n`th Tab from the start, whatever it is. */
  function Trail(app: App, probe: bool, start: Option<Stop>, n: nat): Option<Stop>
    requires n >= 1
  {
    if n == 1 then app.tab(KeyOf(start)) else
    match Trail(app, probe, start, n - 1)
    case None => None
    case Some(s) => app.tab(Leaving(app, probe, s))
  }

  /** `stops` are the first places Tab reaches, all different, none the start. */
  ghost predicate Fresh(app: App, probe: bool, start: Option<Stop>, stops: seq<Stop>) {
    && |stops| <= 45
    && (forall i :: 0 <= i < |stops| ==> Trail(app, probe, start, i + 1) == Some(stops[i]))
    && (forall i, j :: 0 <= i < j < |stops| ==> stops[i].key != stops[j].key)
    && (forall i :: 0 <= i < |stops| ==> KeyOf(start) != Some(stops[i].key))
  }

  ghost predicate Explored(app: App, probe: bool, start: Option<Stop>, stops: seq<Stop>) {
    && Fresh(app, probe, start, stops)
    && (forall i :: 0 <= i < |stops| ==> Kept(app, probe, stops[i]))
  }

  lemma OneMore(app: App, probe: bool, start: Option<Stop>, stops: seq<Stop>, s: Stop)
    requires Explored(app, probe, start, stops) && |stops| < MAX_TAB
    requires Trail(app, probe, start, |stops| + 1) == Some(s) && KeyOf(start) != Some(s.key)
    requires forall i :: 0 <= i < |stops| ==> stops[i].key != s.key
    ensures Fresh(app, probe, start, stops + [s])
    ensures Kept(app, probe, s) ==> Explored(app, probe, start, stops + [s])
    ensures Trail(app, probe, start, |stops| + 2) == app.tab(Leaving(app, probe, s))
  {
    hide Explored, Fresh, Trail, Leaving, Kept, KeyOf;
    TrailStep(app, probe, start, |stops| + 1, s);
    FreshMore(app, probe, start, stops, s);
    if Kept(app, probe, s) {
      KeptMore(app, probe, start, stops, s);
    }
  }

  lemma KeptMore(app: App, probe: bool, start: Option<Stop>, stops: seq<Stop>, s: Stop)
    requires Explored(app, probe, start, stops) && Fresh(app, probe, start, stops + [s]) && Kept(app, probe, s)
    ensures Explored(app, probe, start, stops + [s])
  {
    hide Fresh, Kept;
    assert forall i :: 0 <= i < |stops| ==> (stops + [s])[i] == stops[i];
  }

  lemma FreshMore(app: App, probe: bool, start: Option<Stop>, stops: seq<Stop>, s: Stop)
    requires Explored(app, probe, start, stops) && |stops| < MAX_TAB
    requires Trail(app, probe, start, |stops| + 1) == Some(s) && KeyOf(start) != Some(s.key)
    requires forall i :: 0 <= i < |stops| ==> stops[i].key != s.key
    ensures Fresh(app, probe, start, stops + [s])
  {
    hide Trail, KeyOf, Kept;
    var more := stops + [s];
    forall i | 0 <= i < |more|
      ensures Trail(app, probe, start, i + 1) == Some(more[i]) && KeyOf(start) != Some(more[i].key)
    {
      assert i < |stops| ==> more[i] == stops[i];
    }
    forall i, j | 0 <= i < j < |more|
      ensures more[i].key != more[j].key
    {
      assert more[i] == stops[i] && (j < |stops| ==> more[j] == stops[j]);
    }
  }

  lemma TrailStep(app: App, probe: bool, start: Option<Stop>, n: nat, s: Stop)
    requires n >= 1 && Trail(app, probe, start, n) == Some(s)
    ensures Trail(app, probe, start, n + 1) == app.tab(Leaving(app, probe, s))
  {
  }

  /** After distinct stops the trail comes back to `key`. */
  ghost predicate Returns(app: App, probe: bool, start: Option<Stop>, stops: seq<Stop>, key: string) {
    && Explored(app, probe, start, stops) && 0 < |stops| < 45
    && KeyOf(Trail(app, probe, start, |stops| + 1)) == Some(key)
  }

  /** The meaning of each outcome, in terms of the trail alone. */
  ghost predicate Finished(app: App, probe: bool, start: Option<Stop>, stops: seq<Stop>, outcome: Outcome) {
    var n := |stops|;
    match outcome
    case Limit => n == 45 && Explored(app, probe, start, stops)
    case Lost => n < 45 && Explored(app, probe, start, stops) && Trail(app, probe, start, n + 1) == None
    case Stuck =>
      || (n > 0 && Returns(app, probe, start, stops, stops[n - 1].key))
      || (n == 1 && Trail(app, probe, start, 1) == Some(stops[0]) && KeyOf(start) == Some(stops[0].key))
    case Cycle => ClosesAtStart(app, probe, start, stops) || ClosesAtFirst(app, probe, start, stops)
    case Subcycle =>
      exists j :: 0 <= j < n - 1 && Returns(app, probe, start, stops, stops[j].key) && (j > 0 || !FromWindow(start))
    case ProbeLeftFocus =>
      && n > 0 && Fresh(app, probe, start, stops) && Explored(app, probe, start, stops[..n - 1])
      && !Kept(app, probe, stops[n - 1])
    case Single => false
  }

  lemma EndLost(app: App, probe: bool, start: Option<Stop>, stops: seq<Stop>, keys: seq<string>,
                previous: Option<Stop>, at: Option<string>)
    requires Walking(app, probe, start, stops, keys, previous, at) && |stops| < MAX_TAB && app.tab(at) == None
    ensures Finished(app, probe, start, stops, Lost)
  {
    hide Explored, Trail;
  }

  lemma EndLimit(app: App, probe: bool, start: Option<Stop>, stops: seq<Stop>, keys: seq<string>,
                 previous: Option<Stop>, at: Option<string>)
    requires Walking(app, probe, start, stops, keys, previous, at) && |stops| == MAX_TAB
    ensures Finished(app, probe, start, stops, Limit)
  {
    hide Explored, Trail;
  }

  lemma EndStuck(app: App, probe: bool, start: Option<Stop>, stops: seq<Stop>, keys: seq<string>,
                 previous: Option<Stop>, at: Option<string>, s: Stop)
    requires Walking(app, probe, start, stops, keys, previous, at) && |stops| < MAX_TAB && app.tab(at) == Some(s)
    requires KeyOf(previous) == Some(s.key)
    ensures Finished(app, probe, start, if stops == [] then [s] else stops, Stuck)
  {
    hide Explored, Trail;
  }

  lemma EndAtStart(app: App, probe: bool, start: Option<Stop>, stops: seq<Stop>, keys: seq<string>,
                   previous: Option<Stop>, at: Option<string>, s: Stop)
    requires Walking(app, probe, start, stops, keys, previous, at) && |stops| < MAX_TAB && app.tab(at) == Some(s)
    requires KeyOf(start) == Some(s.key) && stops != []
    ensures Finished(app, probe, start, stops, Cycle)
  {
    hide Explored, Trail;
  }

  lemma EndAgain(app: App, probe: bool, start: Option<Stop>, stops: seq<Stop>, keys: seq<string>,
                 previous: Option<Stop>, at: Option<string>, s: Stop)
    requires Walking(app, probe, start, stops, keys, previous, at) && |stops| < MAX_TAB && app.tab(at) == Some(s)
    requires KeyOf(previous) != Some(s.key) && s.key in keys
    ensures |keys| > 1
    ensures Finished(app, probe, start, stops, if s.key == keys[0] && FromWindow(start) then Cycle else Subcycle)
  {
    var j :| 0 <= j < |keys| && keys[j] == s.key;
    EarlierStop(app, probe, start, stops, j);
    hide Explored, Trail, FromWindow;
    assert j < |stops| - 1 && Returns(app, probe, start, stops, stops[j].key);
  }

  lemma EarlierStop(app: App, probe: bool, start: Option<Stop>, stops: seq<Stop>, j: nat)
    requires Explored(app, probe, start, stops) && j < |stops|
    ensures stops[j].key == stops[0].key <==> j == 0
  {
  }

  lemma EndProbed(app: App, probe: bool, start: Option<Stop>, stops: seq<Stop>)
    requires stops != [] && Fresh(app, probe, start, stops)
    requires Explored(app, probe, start, stops[..|stops| - 1]) && !Kept(app, probe, stops[|stops| - 1])
    ensures Finished(app, probe, start, stops, ProbeLeftFocus)
  {
    hide Explored, Fresh, Kept;
  }

  ghost predicate ClosesAtStart(app: App, probe: bool, start: Option<Stop>, stops: seq<Stop>) {
    start.Some? && Returns(app, probe, start, stops, start.value.key)
  }

  ghost predicate ClosesAtFirst(app: App, probe: bool, start: Option<Stop>, stops: seq<Stop>) {
    |stops| >= 2 && FromWindow(start) && Returns(app, probe, start, stops, stops[0].key)
  }

  /** The trail decides stops and outcome: each outcome is returned exactly
      when its meaning holds of some list of stops, and then with that list. */
  lemma FinishedOnce(app: App, probe: bool, start: Option<Stop>, a: seq<Stop>, x: Outcome, b: seq<Stop>, y: Outcome)
    requires Finished(app, probe, start, a, x) && Finished(app, probe, start, b, y)
    ensures a == b && x == y
  {
    NoLonger(app, probe, start, a, x, b, y);
    NoLonger(app, probe, start, b, y, a, x);
    forall i | 0 <= i < |a|
      ensures a[i] == b[i]
    {
      assert Trail(app, probe, start, i + 1) == Some(a[i]) && Trail(app, probe, start, i + 1) == Some(b[i]);
    }
  }

  /** A finished exploration cannot also have gone on. */
  lemma NoLonger(app: App, probe: bool, start: Option<Stop>, a: seq<Stop>, x: Outcome, b: seq<Stop>, y: Outcome)
    requires Finished(app, probe, start, a, x) && Finished(app, probe, start, b, y)
    ensures |b| <= |a|
  {
    if |a| < |b| {
      forall i | 0 <= i < |a|
        ensures a[i] == b[i]
      {
        assert Trail(app, probe, start, i + 1) == Some(a[i]) && Trail(app, probe, start, i + 1) == Some(b[i]);
      }
      assert Trail(app, probe, start, |a| + 1) == Some(b[|a|]);
      assert false;
    }
  }

  /** Coming back to the first stop without passing the start is a cycle exactly
      from one of the window and container roles (or from no focus at all), and
      a subcycle from any control. */
  lemma RingWithoutStart(app: App, probe: bool, start: Option<Stop>, stops: seq<Stop>, outcome: Outcome)
    requires |stops| >= 2 && Returns(app, probe, start, stops, stops[0].key)
    ensures Finished(app, probe, start, stops, outcome) <==>
            outcome == if start.None? || NoControl(start.value.role) then Cycle else Subcycle
  {
    WindowRoles(start);
    hide FromWindow, NoControl;
    if FromWindow(start) {
      assert Finished(app, probe, start, stops, Cycle);
    } else {
      assert Finished(app, probe, start, stops, Subcycle);
    }
    if Finished(app, probe, start, stops, outcome) {
      FinishedOnce(app, probe, start, stops, outcome, stops, if FromWindow(start) then Cycle else Subcycle);
    }
  }

  predicate NoControl(role: string) {
    || role == "frame" || role == "window" || role == "dialog"
    || role == "panel" || role == "filler" || role == "unknown" || role == "section" || role == "invalid"
    || role == "redundant object" || role == "layered pane" || role == "scroll pane"
    || role == "grouping" || role == "group" || role == "generic"
  }

  lemma WindowRoles(start: Option<Stop>)
    ensures FromWindow(start) <==> start.None? || NoControl(start.value.role)
  {
  }

  /** A probe keeps the stop exactly if focus is still on it, or on an item whose
      parent it is and it is a container that arrow keys move in. */
  lemma KeptMeans(stop: Stop, after: Option<Stop>)
    ensures ProbeKeptTabStop(stop, after) <==>
              && after.Some?
              && (|| after.value.key == stop.key
                  || (MovesByArrows(stop.role) && ItemRole(after.value.role) && after.value.parent == stop.key))
  {
  }

  predicate MovesByArrows(role: string) {
    || role == "list" || role == "list box" || role == "tree" || role == "table" || role == "tree table"
    || role == "menu" || role == "menu bar" || role == "radio group" || role == "page tab list" || role == "tool bar"
  }

  predicate ItemRole(role: string) {
    role == "list item" || role == "tree item" || role == "table row" || role == "table cell"
  }

  /** A probe that lost the stop ends the exploration there, with the stop. */
  lemma LostProbe(app: App, start: Option<Stop>, stops: seq<Stop>, outcome: Outcome)
    requires stops != [] && Fresh(app, true, start, stops) && Explored(app, true, start, stops[..|stops| - 1])
    requires !Kept(app, true, stops[|stops| - 1])
    requires Finished(app, true, start, stops, outcome)
    ensures outcome == ProbeLeftFocus
  {
    EndProbed(app, true, start, stops);
    FinishedOnce(app, true, start, stops, outcome, stops, ProbeLeftFocus);
  }

  // ------------------------------------------------------------ what a cycle means

  /** A probe may move focus inside a stop, but Tab leaves from the stop. */
  ghost predicate NeutralProbes(app: App) {
    forall s: Stop {:trigger Leaving(app, true, s)} :: app.tab(Leaving(app, true, s)) == app.tab(Some(s.key))
  }

  /** `back` undoes Tab wherever Tab is pressed on one of `stops`. */
  ghost predicate Undoes(app: App, back: Option<string> -> Option<Stop>, stops: seq<Stop>) {
    forall s :: s in stops && app.tab(Some(s.key)).Some? ==>
      KeyOf(back(KeyOf(app.tab(Some(s.key))))) == Some(s.key)
  }

  lemma NextStop(app: App, probe: bool, start: Option<Stop>, stops: seq<Stop>, i: nat)
    requires (probe ==> NeutralProbes(app)) && Fresh(app, probe, start, stops) && i < |stops|
    ensures app.tab(Some(stops[i].key)) == Trail(app, probe, start, i + 2)
  {
  }

  /** A returned cycle is all that Tab can reach: however often it is pressed,
      focus stays on the start and the listed stops. */
  lemma {:induction false} CycleIsComplete(app: App, probe: bool, start: Option<Stop>, stops: seq<Stop>, m: nat)
    requires (probe ==> NeutralProbes(app)) && Finished(app, probe, start, stops, Cycle) && m >= 1
    ensures Trail(app, probe, start, m).Some?
    ensures var key := Trail(app, probe, start, m).value.key;
            KeyOf(start) == Some(key) || exists i :: 0 <= i < |stops| && stops[i].key == key
  {
    if m <= |stops| {
      assert Trail(app, probe, start, m) == Some(stops[m - 1]);
    } else {
      var n := |stops|;
      CycleIsComplete(app, probe, start, stops, m - 1);
      var here := Trail(app, probe, start, m - 1).value;
      if i :| 0 <= i < n && stops[i].key == here.key {
        NextStop(app, probe, start, stops, i);
        assert Trail(app, probe, start, m) == Trail(app, probe, start, i + 2);
        assert i + 1 < n ==> Trail(app, probe, start, i + 2) == Some(stops[i + 1]);
      } else {
        assert Trail(app, probe, start, m) == Trail(app, probe, start, 1) == Some(stops[0]);
      }
    }
  }

  /** A subcycle has two different places that Tab takes to the same stop. */
  lemma SameStopTwice(app: App, probe: bool, start: Option<Stop>, stops: seq<Stop>, j: nat)
    requires (probe ==> NeutralProbes(app)) && j < |stops| - 1 && Returns(app, probe, start, stops, stops[j].key)
    ensures KeyOf(app.tab(Some(stops[|stops| - 1].key))) == Some(stops[j].key)
    ensures j > 0 ==> KeyOf(app.tab(Some(stops[j - 1].key))) == Some(stops[j].key)
    ensures j == 0 ==> KeyOf(app.tab(KeyOf(start))) == Some(stops[0].key)
  {
    NextStop(app, probe, start, stops, |stops| - 1);
    if j > 0 {
      NextStop(app, probe, start, stops, j - 1);
    } else {
      assert Trail(app, probe, start, 1) == Some(stops[0]);
    }
  }

  /** A reported trap is real: when anything at all undoes Tab on the start and
      the stops, the exploration never ends in a subcycle. */
  lemma UndoableTabNeverTraps(app: App, probe: bool, start: Option<Stop>, stops: seq<Stop>, outcome: Outcome,
                              back: Option<string> -> Option<Stop>)
    requires (probe ==> NeutralProbes(app)) && Finished(app, probe, start, stops, outcome)
    requires Undoes(app, back, stops + if start.Some? then [start.value] else [])
    ensures outcome != Subcycle
  {
    hide NeutralProbes;
    if outcome == Subcycle {
      var n := |stops|;
      var j :| 0 <= j < n - 1 && Returns(app, probe, start, stops, stops[j].key) && (j > 0 || !FromWindow(start));
      var known := stops + if start.Some? then [start.value] else [];
      assert known[n - 1] == stops[n - 1] && (j > 0 ==> known[j - 1] == stops[j - 1]);
      assert (start.Some? ==> known[n] == start.value);
      SameStopTwice(app, probe, start, stops, j);
    }
  }

  // ------------------------------------------------------------ Shift-Tab

  /** `reverse_flags`: the index of the first press that went elsewhere. */
  method ReverseFlags(ring: seq<Stop>, reverse: seq<Option<Stop>>) returns (flagged: Option<nat>)
    ensures flagged.None? <==> forall i :: 0 <= i < |ring| && i < |reverse| ==> Mirrors(ring, reverse, i)
    ensures flagged.Some? ==>
              && flagged.value < |ring| && flagged.value < |reverse| && !Mirrors(ring, reverse, flagged.value)
              && forall i :: 0 <= i < flagged.value ==> Mirrors(ring, reverse, i)
  {
    var index := 0;
    while index < |ring| && index < |reverse|
      invariant index <= |ring| && index <= |reverse|
      invariant forall i :: 0 <= i < index ==> Mirrors(ring, reverse, i)
    {
      if KeyOf(reverse[index]) != Some(ring[|ring| - 1 - index].key) {
        assert !Mirrors(ring, reverse, index);
        return Some(index);
      }
      index := index + 1;
    }
    return None;
  }

  predicate Mirrors(ring: seq<Stop>, reverse: seq<Option<Stop>>, i: nat)
    requires i < |ring| && i < |reverse|
  {
    KeyOf(reverse[i]) == Some(ring[|ring| - 1 - i].key)
  }

  function Presses(back: Option<string> -> Option<Stop>, at: Option<string>, n: nat): (foci: seq<Option<Stop>>)
    ensures |foci| == n
    decreases n
  {
    if n == 0 then [] else [back(at)] + Presses(back, KeyOf(back(at)), n - 1)
  }

  /** The ring the audit expects Shift-Tab to walk. */
  function Ring(start: Option<Stop>, stops: seq<Stop>, outcome: Outcome): seq<Stop> {
    if outcome == Subcycle || start.None? || exists i :: 0 <= i < |stops| && stops[i].key == start.value.key then stops
    else [start.value] + stops
  }

  /** How often Shift-Tab is pressed. */
  function Few(stops: seq<Stop>): (count: nat)
    ensures count <= |stops| && count <= 3 && (|stops| >= 3 ==> count == 3) && (|stops| < 3 ==> count == |stops|)
  {
    if |stops| < 3 then |stops| else 3
  }

  /** Focus goes over the stops, from the last one back. */
  predicate GoesBack(foci: seq<Option<Stop>>, stops: seq<Stop>) {
    forall i :: 0 <= i < |foci| && i < |stops| ==> OnStop(foci, stops, i)
  }

  predicate OnStop(foci: seq<Option<Stop>>, stops: seq<Stop>, i: nat)
    requires i < |foci| && i < |stops|
  {
    KeyOf(foci[i]) == Some(stops[|stops| - 1 - i].key)
  }

  /** The Shift-Tab part of `run_app`; `at` is the focus the cycle ended on. No
      more presses are made than there are stops, so whether the ring holds the
      start as well makes no difference. */
  method CheckReverse(back: Option<string> -> Option<Stop>, at: Option<string>, start: Option<Stop>, stops: seq<Stop>,
                      outcome: Outcome) returns (flagged: Option<nat>)
    ensures flagged.None? <==>
            (outcome == Cycle || outcome == Subcycle) && |stops| >= 2 ==> GoesBack(Presses(back, at, Few(stops)), stops)
    ensures flagged.Some? ==> flagged.value < 3
  {
    if (outcome != Cycle && outcome != Subcycle) || |stops| < 2 {
      return None;
    }
    hide Ring, Presses, Mirrors, GoesBack;
    var reverse := PressBack(back, at, Few(stops));
    flagged := ReverseFlags(Ring(start, stops, outcome), reverse);
    RingIsStops(start, stops, outcome, reverse);
  }

  lemma RingIsStops(start: Option<Stop>, stops: seq<Stop>, outcome: Outcome, reverse: seq<Option<Stop>>)
    requires |reverse| <= |stops|
    ensures var ring := Ring(start, stops, outcome);
            && |reverse| <= |ring|
            && (GoesBack(reverse, stops)
                <==> forall i :: 0 <= i < |ring| && i < |reverse| ==> Mirrors(ring, reverse, i))
  {
    hide Ring, OnStop, Mirrors;
    RingEnds(start, stops, outcome);
    var ring := Ring(start, stops, outcome);
    assert forall i :: 0 <= i < |reverse| ==> (Mirrors(ring, reverse, i) <==> OnStop(reverse, stops, i)) by {
      forall i | 0 <= i < |reverse|
        ensures Mirrors(ring, reverse, i) <==> OnStop(reverse, stops, i)
      {
        SameMirror(ring, stops, reverse, i);
      }
    }
  }

  lemma SameMirror(ring: seq<Stop>, stops: seq<Stop>, reverse: seq<Option<Stop>>, i: nat)
    requires i < |reverse| && i < |stops| <= |ring|
    requires forall k :: 0 <= k < |stops| ==> ring[|ring| - |stops| + k] == stops[k]
    ensures Mirrors(ring, reverse, i) <==> OnStop(reverse, stops, i)
  {
    var k := |stops| - 1 - i;
    assert ring[|ring| - |stops| + k] == stops[k];
  }

  method PressBack(back: Option<string> -> Option<Stop>, at: Option<string>, count: nat)
    returns (reverse: seq<Option<Stop>>)
    ensures reverse == Presses(back, at, count)
  {
    reverse := [];
    var previous := at;
    for pressed := 0 to count
      invariant Presses(back, at, count) == reverse + Presses(back, previous, count - pressed)
    {
      var focus := back(previous);
      reverse := reverse + [focus];
      previous := KeyOf(focus);
    }
  }

  /** Where an undoing key leads from the end of a cycle: back over the stops. */
  lemma {:induction false} WalksBack(app: App, probe: bool, start: Option<Stop>, stops: seq<Stop>,
                                     back: Option<string> -> Option<Stop>, done: nat, count: nat, at: Option<string>)
    requires (probe ==> NeutralProbes(app)) && Fresh(app, probe, start, stops) && Undoes(app, back, stops)
    requires done + count <= |stops|
    requires at.Some? && at == KeyOf(Trail(app, probe, start, |stops| - done + 1))
    ensures forall i :: 0 <= i < count ==> KeyOf(Presses(back, at, count)[i]) == Some(stops[|stops| - 1 - done - i].key)
    decreases count
  {
    hide Fresh, Trail, NeutralProbes;
    if count > 0 {
      var k, foci := |stops| - 1 - done, Presses(back, at, count);
      NextStop(app, probe, start, stops, k);
      assert stops[k] in stops;
      assert KeyOf(back(at)) == Some(stops[k].key);
      StopOnTrail(app, probe, start, stops, k);
      WalksBack(app, probe, start, stops, back, done + 1, count - 1, KeyOf(back(at)));
      assert foci[0] == back(at) && foci[1..] == Presses(back, KeyOf(back(at)), count - 1);
      forall i | 0 <= i < count
        ensures KeyOf(foci[i]) == Some(stops[|stops| - 1 - done - i].key)
      {
        assert i > 0 ==> foci[i] == foci[1..][i - 1];
      }
    }
  }

  lemma StopOnTrail(app: App, probe: bool, start: Option<Stop>, stops: seq<Stop>, k: nat)
    requires Fresh(app, probe, start, stops) && k < |stops|
    ensures Trail(app, probe, start, k + 1) == Some(stops[k])
  {
  }

  /** If Shift-Tab undoes Tab on a returned cycle, no reverse-order flag is
      raised, whether the cycle closed at the start or at the first stop. */
  lemma UndoneCycleIsNotFlagged(app: App, probe: bool, start: Option<Stop>, stops: seq<Stop>,
                                back: Option<string> -> Option<Stop>, at: Option<string>)
    requires (probe ==> NeutralProbes(app)) && Finished(app, probe, start, stops, Cycle) && Undoes(app, back, stops)
    requires at == KeyOf(Trail(app, probe, start, |stops| + 1))
    ensures GoesBack(Presses(back, at, Few(stops)), stops)
  {
    hide NeutralProbes, Undoes, Fresh, Trail, Presses, Finished;
    var count := Few(stops);
    CycleIsFresh(app, probe, start, stops);
    WalksBack(app, probe, start, stops, back, 0, count, at);
    var foci := Presses(back, at, count);
    forall i | 0 <= i < |foci|
      ensures OnStop(foci, stops, i)
    {
      assert KeyOf(foci[i]) == Some(stops[|stops| - 1 - 0 - i].key);
    }
  }

  lemma CycleIsFresh(app: App, probe: bool, start: Option<Stop>, stops: seq<Stop>)
    requires Finished(app, probe, start, stops, Cycle)
    ensures Fresh(app, probe, start, stops) && Trail(app, probe, start, |stops| + 1).Some?
  {
  }

  lemma RingEnds(start: Option<Stop>, stops: seq<Stop>, outcome: Outcome)
    ensures var ring := Ring(start, stops, outcome);
            |ring| >= |stops| && forall k :: 0 <= k < |stops| ==> ring[|ring| - |stops| + k] == stops[k]
  {
    hide Ring;
    RingIs(start, stops, outcome);
    var ring := Ring(start, stops, outcome);
    if ring != stops {
      forall k | 0 <= k < |stops|
        ensures ring[1 + k] == stops[k]
      {
        assert ring[1..][k] == stops[k];
      }
    }
  }

  lemma RingIs(start: Option<Stop>, stops: seq<Stop>, outcome: Outcome)
    ensures var ring := Ring(start, stops, outcome);
            ring == stops || (|ring| == |stops| + 1 && ring[1..] == stops)
  {
  }

  // ------------------------------------------------------------ items as stops

  /** `length` Tab stops in a row, from index `first`. */
  datatype Run = Run(first: nat, length: nat)

  predicate IsItem(s: Stop) {
    s.role in ITEM_ROLES
  }

  /** Neighbouring stops that are items of one list. */
  predicate Joined(stops: seq<Stop>, i: int) {
    && 0 < i < |stops|
    && ItemRole(stops[i - 1].role) && ItemRole(stops[i].role) && stops[i - 1].parent == stops[i].parent
  }

  /** Items of one list in a row, as many as there are. */
  predicate Maximal(stops: seq<Stop>, r: Run) {
    && r.length > 0 && r.first + r.length <= |stops|
    && ItemRole(stops[r.first].role)
    && (forall i :: r.first < i < r.first + r.length ==> Joined(stops, i))
    && !Joined(stops, r.first) && !Joined(stops, r.first + r.length)
  }

  lemma SameEnd(stops: seq<Stop>, a: Run, b: Run)
    requires Maximal(stops, a) && Maximal(stops, b) && a.first + a.length == b.first + b.length
    ensures a == b
  {
  }

  /** `item_stop_flags`: exactly the maximal runs of three or more, in order. */
  method ItemStopFlags(stops: seq<Stop>) returns (flags: seq<Run>)
    ensures forall r :: r in flags <==> Maximal(stops, r) && r.length >= 3
    ensures forall i, j :: 0 <= i < j < |flags| ==> flags[i].first + flags[i].length <= flags[j].first
  {
    hide Joined, Maximal, IsItem, OpenRun, FoundUpTo;
    flags := [];
    NothingYet(stops);
    var first, length := 0, 0;
    for i := 0 to |stops| + 1
      invariant length > 0 ==> first + length == i <= |stops| && OpenRun(stops, first, length, i)
      invariant length == 0 && 0 < i <= |stops| ==> !IsItem(stops[i - 1])
      invariant FoundUpTo(stops, flags, if length > 0 then first else i)
      invariant forall a, b :: 0 <= a < b < |flags| ==> flags[a].first + flags[a].length <= flags[b].first
    {
      assert length > 0 ==> OpenRun(stops, first, length, i);
      if length > 0 && i < |stops| && IsItem(stops[i]) && stops[i].parent == stops[first].parent {
        RunGoesOn(stops, first, length, i);
        length := length + 1;
        continue;
      }
      NoneJoins(stops, first, length, i);
      if length > 0 {
        RunEnds(stops, flags, first, length, i);
      }
      if length >= 3 {
        flags := flags + [Run(first, length)];
      }
      if i < |stops| && IsItem(stops[i]) {
        RunBegins(stops, i);
        first, length := i, 1;
      } else {
        length := 0;
        NothingEndsHere(stops, flags, i);
      }
    }
    AllFound(stops, flags);
  }

  /** The run being followed: `length` items of one list up to index `i`. */
  ghost predicate OpenRun(stops: seq<Stop>, first: nat, length: nat, i: nat) {
    && 0 < length && first + length == i <= |stops| && !Joined(stops, first)
    && (forall k :: first <= k < i ==> ItemRole(stops[k].role) && stops[k].parent == stops[first].parent)
  }

  ghost predicate FoundUpTo(stops: seq<Stop>, flags: seq<Run>, bound: nat) {
    forall r :: r in flags <==> Maximal(stops, r) && r.length >= 3 && r.first + r.length <= bound
  }

  lemma AllFound(stops: seq<Stop>, flags: seq<Run>)
    requires FoundUpTo(stops, flags, |stops| + 1)
    ensures forall r :: r in flags <==> Maximal(stops, r) && r.length >= 3
  {
  }

  lemma NothingYet(stops: seq<Stop>)
    ensures FoundUpTo(stops, [], 0)
  {
  }

  lemma RunGoesOn(stops: seq<Stop>, first: nat, length: nat, i: nat)
    requires OpenRun(stops, first, length, i) && i < |stops|
    requires IsItem(stops[i]) && stops[i].parent == stops[first].parent
    ensures OpenRun(stops, first, length + 1, i + 1)
  {
  }

  lemma RunBegins(stops: seq<Stop>, i: nat)
    requires i < |stops| && IsItem(stops[i]) && !Joined(stops, i)
    ensures OpenRun(stops, i, 1, i + 1)
  {
  }

  lemma NoneJoins(stops: seq<Stop>, first: nat, length: nat, i: nat)
    requires length > 0 ==> OpenRun(stops, first, length, i)
    requires length > 0 ==> i == |stops| || !IsItem(stops[i]) || stops[i].parent != stops[first].parent
    requires length == 0 && 0 < i <= |stops| ==> !IsItem(stops[i - 1])
    ensures !Joined(stops, i)
  {
  }

  lemma RunEnds(stops: seq<Stop>, flags: seq<Run>, first: nat, length: nat, i: nat)
    requires OpenRun(stops, first, length, i) && !Joined(stops, i) && FoundUpTo(stops, flags, first)
    ensures FoundUpTo(stops, if length >= 3 then flags + [Run(first, length)] else flags, i)
    ensures forall r :: r in flags ==> r.first + r.length <= first
  {
    var run := Run(first, length);
    assert Maximal(stops, run);
    forall r | Maximal(stops, r) && first < r.first + r.length <= i
      ensures r == run
    {
      var end := r.first + r.length;
      assert end < i ==> Joined(stops, end);
      SameEnd(stops, r, run);
    }
  }

  lemma NothingEndsHere(stops: seq<Stop>, flags: seq<Run>, i: nat)
    requires i <= |stops| && FoundUpTo(stops, flags, i) && (i < |stops| ==> !IsItem(stops[i]))
    ensures FoundUpTo(stops, flags, i + 1)
  {
    forall r | Maximal(stops, r)
      ensures r.first + r.length != i + 1
    {
      assert r.first + r.length == i + 1 && r.length > 1 ==> Joined(stops, i);
    }
  }
}
