# Verified models of the Lulo scripts

Lulo OS keeps its behaviour tests, visual audits and release checks in Python
scripts. Several of them hold algorithms whose correctness the results depend
on: a wake protocol between processes, a PNG decoder, an explorer of an unknown
Tab order, release verdicts over traces, binary encoders and digests. This
project models those algorithms in Dafny and proves what they are for.

`dafny verify dfyconfig.toml` checks everything. There is one module a
component; scripts that update variables, lists or buffers step by step are
methods with loops, and each is tied to a function or predicate about which the
properties are then proved.

| module | script | main result |
|---|---|---|
| `WakeProtocol`, `FakeAudio` | `scripts/behavior/fake_audio.py` | in every interleaving of any number of monitors and writers no wakeup is lost, no run goes on for ever, and every run that cannot go on has settled with all monitors current; the printed graph reports the state |
| `PngFilters`, `PngContainer`, `PngImages` | `scripts/measure-reference.py`, `scripts/verify-visual-suite.py`, `scripts/audit-visual-comparisons.py`, `scripts/a11y/orca_audit.py`, `scripts/behavior/run_desktop_first_paint.py` | the in-place decoder inverts every choice of row filters; the strict walker accepts exactly the canonical files; whatever it accepts, the header reader and the loader read the same way; written images come back pixel by pixel |
| `TabCycle` | `scripts/a11y/orca_audit.py`, `scripts/a11y/orca_checks.py` | the outcome and stops are exactly determined by the iterates of an arbitrary Tab function; a cycle is all Tab can reach; an undoable Tab is never called a trap; a Shift-Tab that undoes Tab is never flagged |
| `FrameTiming`, `InteractionTrace`, `Sorting`, `Rounding` | `scripts/behavior/run_frame_timing.py`, `scripts/analyze-interaction-trace.py` | the pairing automaton finds exactly the frames, no time is counted twice, percentile and share verdicts are the same verdict, sparse traces cannot pass |
| `Shrink` | `scripts/behavior/monkey.py` | the returned prefix was seen to fail, is minimal by one action up to 16384 actions without any assumption of monotonicity, and is the shortest one exactly when the prefixes that halving tries on the way fail too |
| `ProcessTree`, `ProcStat` | `scripts/behavior/run_memory_soak.py` | exactly the descendants, each queued and summed once, even on cyclic parent links; no command name can forge a parent or ticks, but one that is no text ends the sample |
| `SceneScores` | `scripts/compare_shell_scenes.py` | regions tile the image, scores average, and the whole is over a limit only if a part is, and if all parts are, rounding included |
| `Xcursor` | `scripts/build-cursors.py` | files read back; the chunks tile the file at the positions its table names |
| `Ipp`, `FakeCupsd` | `scripts/behavior/fake_cupsd.py` | responses decode back; the request reader is independent of how the stream is split exactly under a guard on the announced length |
| `Framing`, `Snapshot` | `scripts/behavior/run_installed_suite.py`, `scripts/stage-beta-source.py` | the digest input is injective; verification accepts exactly the trees with the recorded sizes and digests, and exactly which change of an item it does not see |
| `MaterialSolve` | `scripts/measure-reference.py` | exact without rounding, and an error bound with it |

## Where the code and its documentation part

- `verify_snapshot` says it fails "if any source byte or link changed". It
  compares sizes and digests of payloads, not kinds: a listed item may be
  replaced exactly by any item whose payload has the same size and digest
  (`Snapshot.ListedItemReplaced`), so a recorded link may arrive as a regular
  file holding the link's target (`Snapshot.LinkKindUnchecked`), and a recorded
  file as a link to what it held (`Snapshot.FileKindUnchecked`). It also takes a
  second record of one file under another spelling (`Snapshot.SecondSpelling`).
- `shrink` speaks of the shortest prefix and names its assumption. The result is
  the shortest failing prefix if and only if every longer prefix that halving
  towards it tries fails too and there are attempts enough
  (`Shrink.ShortestExactly`). That always holds of findings seen right after an
  action (`Shrink.SightedIsShortest`). It can fail of runaway CPU, which is looked
  for after the last action only (`Shrink.NotAlwaysShortest`). In any case the
  result is minimal by one action for logs the attempts can halve to one
  (`Shrink.OneMinimal`).
- A process whose `stat` file is no text (a command name cut inside a character)
  is not skipped: the error is not caught, and the whole sample ends
  (`ProcessTree.Scan`, `ProcessTree.SampleTree`).
- The request reader stops reading once it has the announced length, so an
  announced length below 8 makes the answer depend on how the peer's bytes are
  split (`FakeCupsd.SplitMatters`); at 8 and above it never does
  (`FakeCupsd.SplitIrrelevant`).
- The loader does not notice that the last, unfiltered scanline of a PNG lacks
  up to one pixel, and returns a short image
  (`PngFilters.DecodedSize`).
- The missed-frame percentage is documented not to improve by leaving frames
  out. It does improve exactly when a trace with more frames than output slots
  drops a missed frame, unless all frames are missed
  (`InteractionTrace.OmittingLowersOnlyExcess`), and that can turn the verdict of
  an accepted trace (`InteractionTrace.OmissionCanPass`); the verdict is still
  safe against sparse traces (`InteractionTrace.SparseCannotPass`).
- `tab_cycle` can never return "single": a first stop seen again is "stuck"
  (`TabCycle.Explore`, whose meaning of that outcome is `false`). A first press
  that does not move returns the start itself as the only stop.
- The scene regions lie inside the image exactly for windows, and for screens
  at least 140 pixels high (`SceneScores.RegionsInside`).

## What is assumed

- Times, shares, percentages, volumes and alphas are exact numbers, not
  floating point; `round` is rounding half to even of those.
- CRC-32, zlib, SHA-256, `int()` and the header lines of a request are function
  parameters. Of zlib only `inflate(deflate(x)) == x` is assumed
  (`PngContainer.Codec.Lossless`); statements about digests name the pair of
  inputs that would have to collide.
- Replacing the state file is one step; two writers may overwrite each other's
  changes, as in the script. Opening a FIFO fails for want of a reader only, a
  writer is not killed between its commit and its last wake, and a directory
  listing contains every FIFO that exists throughout it.
- The recorded laptop dump has one output, `Built-in Audio Analog Stereo`, with
  channels, and one default metadata object
  (`crates/rmac-audio/src/fixtures/pw-dump-laptop-full.json`).
- A staged tree is keyed by relative paths as a directory walk spells them, and
  no record leads through a link to a directory; a record's own path is resolved
  by dropping empty and single-dot parts.
- The statements about shortest prefixes take a replayed application to behave
  the same in every replay; what was seen to reproduce is stated without that.
- The application under the accessibility audit is deterministic: where Tab
  goes depends on the focused object, and where a probe leaves focus on the
  probed stop. The meaning of a cycle, and the Shift-Tab result, further take
  Tab to leave a probed stop as it leaves the stop itself.

## Model

| member | source | states |
|---|---|---|
| `WakeProtocol.NoLostWakeup` | scripts/behavior/fake_audio.py:173-205 | after any interleaving, with no writer between its commit and its last wake, a monitor blocked on an empty FIFO shows the graph of the current state, even if it started or opened its FIFO during a write |
| `WakeProtocol.RunInv` | scripts/behavior/fake_audio.py:173-205 | every run keeps the invariant: a monitor that shows, or is about to show, an old graph has a byte pending or is owed a wake by some writer |
| `WakeProtocol.WakeMeans` | scripts/behavior/fake_audio.py:173-205 | a listing has a FIFO from its making to the exit; a wake leaves one byte where the FIFO is open at the other end and holds fewer than 65536, and nothing otherwise |
| `WakeProtocol.WriterStepInv` | scripts/behavior/fake_audio.py:194-205 | each writer step (commit, list, open or skip, write or find the FIFO full) keeps that invariant |
| `WakeProtocol.MonitorStepInv` | scripts/behavior/fake_audio.py:173-191 | so does each monitor step (make, open, read state, print, drain up to 64 bytes, exit) |
| `WakeProtocol.DebtStep` | scripts/behavior/fake_audio.py:194-205 | a writer that stops owing a wake to a monitor with a reader has left it a pending byte |
| `WakeProtocol.StepWork` | scripts/behavior/fake_audio.py:173-205 | every step uses up work, although a wake makes its monitor work again |
| `WakeProtocol.RunsAreBounded` | scripts/behavior/fake_audio.py:173-205 | no run from a state is longer than the work in it: nothing is woken for ever |
| `WakeProtocol.SomeStep` | scripts/behavior/fake_audio.py:173-205 | whatever is started and unfinished can step by itself: no deadlock |
| `WakeProtocol.SettledIsCurrent` | scripts/behavior/fake_audio.py:173-205 | once nothing is left to do, every live monitor shows the current graph |
| `WakeProtocol.MaximalRunsSettle` | scripts/behavior/fake_audio.py:173-205 | every run that only an outside start or stop could extend has settled with all live monitors current |
| `WakeProtocol.Session.WakeOne` | scripts/behavior/fake_audio.py:195-205 | open, write, close of one FIFO adds at most one byte to that monitor, touches nothing else, and is a run of the protocol |
| `WakeProtocol.Session.WakeMonitors` | scripts/behavior/fake_audio.py:194-205 | the loop over the FIFOs, undisturbed, pokes every monitor that has a reader exactly once |
| `WakeProtocol.Session.RunWriter` | scripts/behavior/fake_audio.py:217-253 | a whole `wpctl` or `set-graph`: the accepted change is in the file and every reader is poked, a refused one changes nothing; the exit code |
| `WakeProtocol.Session.MonitorTurn` | scripts/behavior/fake_audio.py:184-187 | one turn of the monitor loop takes at most 64 bytes and shows the graph of the file as it is |
| `FakeAudio.EditState` | scripts/behavior/fake_audio.py:217-238 | from a well-formed state, the code of a refusal is that of its reason, and an accepted command leaves a well-formed state of the same graph with the new default, the clamped level or the flipped or set mute at the named output, and every other entry as it was; `WakeProtocol.Session.RunWriter` commits that state |
| `FakeAudio.InitialWellFormed` | scripts/behavior/fake_audio.py:47-63 | each initial state has the levels of its own outputs, none muted, and a default that is one of them |
| `FakeAudio.ApplyWellFormed` | scripts/behavior/fake_audio.py:217-238 | every accepted command keeps levels in 0 to 1.5, the nodes of the graph, and a default among the outputs |
| `FakeAudio.ApplyRefuses` | scripts/behavior/fake_audio.py:217-238 | a command is refused exactly for a short call (code 2), an unknown node (1), an unsupported call (2) or a level that is no number (1), in that order; without outputs always |
| `FakeAudio.ApplyFrame` | scripts/behavior/fake_audio.py:227-233 | an accepted command changes its own setting of its own node and nothing else, for every node |
| `FakeAudio.ToggleTwice` | scripts/behavior/fake_audio.py:231-233 | toggling mute twice restores the state |
| `FakeAudio.Clamp` | scripts/behavior/fake_audio.py:230 | a level is kept in 0 to 1.5, cut to 0 below and to 1.5 above, infinity and no number included |
| `FakeAudio.Find` | scripts/behavior/fake_audio.py:208-214 | a node number names an output of the graph exactly when one has it |
| `FakeAudio.TargetNames` | scripts/behavior/fake_audio.py:91-97 | 61 and 62 name the speakers and the HDMI output of the pair, 52 the laptop's own, the alias the default, and nothing else names anything |
| `FakeAudio.RealGraph` | scripts/behavior/fake_audio.py:100-125 | one pass over the recorded dump edits or drops each object as specified, or fails on a missing level |
| `FakeAudio.EditedDumpReports` | scripts/behavior/fake_audio.py:100-125 | of any dump of that shape: each metadata announces the state's default once, in the first place, or not at all; each output is dropped or shows the state's mute and, on every channel it had, the cube of its level to six places; every other object and setting is kept in order |
| `FakeAudio.GraphReportsState` | scripts/behavior/fake_audio.py:100-165 | printing a well-formed state never fails, and an independent reader finds its default, its outputs by name with their mute and the cube of their level to six places on each channel, and all unrelated objects and settings |
| `FakeAudio.InitialLevels` | scripts/behavior/fake_audio.py:47-165 | the initial graphs in numbers: 0.125 and 0.343 for the pair with the speakers the default, 0.027 for the laptop, no output and no default for none |
| `PngFilters.PredictorsOfStandard` | scripts/measure-reference.py:57-66 | the five predictions are those of section 6 of RFC 2083; the Paeth choice is nearest to left + above - above left, ties in the order left, above |
| `PngFilters.LeftIsPreviousPixel` | scripts/measure-reference.py:54-56 | the byte to the left is the same channel of the previous pixel, zero in the first |
| `PngFilters.UnfilterFilters` | scripts/measure-reference.py:53-66 | reconstruction undoes filtering, for every filter byte and pixel width |
| `PngFilters.FilterUnfilters` | scripts/measure-reference.py:53-66 | and is the only scanline that filters to the bytes read |
| `PngFilters.UnfilterInPlace` | scripts/measure-reference.py:53-66 | the overwriting loop, reading bytes it has already replaced, computes the reconstruction |
| `PngFilters.ShortLine` | scripts/measure-reference.py:52-66 | the byte loop gets through a cut-off scanline exactly if nothing is predicted and at most one pixel is missing |
| `PngFilters.ReadRows` | scripts/measure-reference.py:49-69 | the row loop with its moving offset and previous row returns the decoded pixels, or fails where the script runs past the stream |
| `PngFilters.Reconstruct` | scripts/measure-reference.py:46-69 | the same from the zeroed buffers on |
| `PngFilters.DecodeEncodes` | scripts/measure-reference.py:46-69 | any rows, filtered with any filter a row, decode to exactly those rows, wherever in the stream they start |
| `PngFilters.DecodedSize` | scripts/measure-reference.py:50-68 | decoding succeeds exactly on complete streams and on those that lack at most one pixel of an unfiltered last row, and how many bytes come out |
| `PngContainer.PngDimensions` | scripts/verify-visual-suite.py:117-183 | the loop over offsets returns the specified dimensions or the specific error of the first failed check |
| `PngContainer.StrictAcceptsCanonical` | scripts/verify-visual-suite.py:117-183 | a file is accepted with a size if and only if it is the rendering of a canonical chunk list of that size (one header, first; one empty terminator, last; image data; nothing forbidden; right checksums; complete scanlines with known filters) |
| `PngContainer.PassesMeans` | scripts/verify-visual-suite.py:170-182 | the stream check is: `height` lines of a filter type up to 4 and `width` pixels of 3 or 4 bytes, at most 64 MiB |
| `PngContainer.ChunkBytes` | scripts/verify-visual-suite.py:127-137 | a chunk that is read is four bytes of length, four of name, the data, and four of the CRC over name and data |
| `PngContainer.NamesOfStandard` | scripts/verify-visual-suite.py:20-21 | signature, chunk names and forbidden names, letter by letter |
| `PngContainer.ReadRendered` | scripts/verify-visual-suite.py:127-137 | a rendered chunk is read back where it lies |
| `PngContainer.RenderedRead` | scripts/verify-visual-suite.py:127-137 | and what is read is the rendering of the chunk at that offset |
| `PngContainer.WalkRendered` | scripts/verify-visual-suite.py:126-167 | the walk over bytes is the walk over chunks |
| `PngContainer.WalkedChunks` | scripts/verify-visual-suite.py:126-167 | every file that is walked to its end is the rendering of some chunks, with no byte left over |
| `PngContainer.FoldTail` | scripts/verify-visual-suite.py:138-167 | which chunks after the header are accepted, and what they leave |
| `PngContainer.StrictThenHeader` | scripts/audit-visual-comparisons.py:50-61 | on every file the strict walker accepts, the 24-byte header reader returns the same dimensions |
| `PngContainer.HeaderExactly` | scripts/audit-visual-comparisons.py:50-61 | the header reader accepts exactly what begins with the signature, four bytes, the name IHDR and two sizes that are not zero, and returns those |
| `PngImages.Load` | scripts/measure-reference.py:28-69 | the loader's two loops compute the specified image or refusal |
| `PngImages.ChannelsOfStandard` | scripts/measure-reference.py:44 | one channel or, with the colour bit, three, and one more with the alpha bit; no other colour type |
| `PngImages.LoadFollowsWalk` | scripts/measure-reference.py:31-42 | on whatever the strict walker gets through, the loader's tolerant walk sees the same header and the same image data |
| `PngImages.StrictThenLoad` | scripts/measure-reference.py:28-69 | every file the strict walker accepts loads, to an image of the accepted size whose pixels are those of the checked stream |
| `PngImages.FileRoundTrip` | scripts/behavior/run_desktop_first_paint.py:99-108 | any RGB image within the limits, with any row filters and any cut of the compressed stream into chunks, is accepted with its size by both readers and loads to exactly its pixels |
| `PngImages.PaintedPixels` | scripts/a11y/orca_audit.py:79-87 | a picture drawn by a function of x and y, written as the writers do, loads back with that function's colour at every point |
| `PngImages.TinyFile` | scripts/a11y/orca_audit.py:79-87 | the audit's picture loads with 4x and 5y modulo 256 and one blue at every point |
| `PngImages.SolidStream` | scripts/behavior/run_desktop_first_paint.py:99-101 | multiplying one pixel and one row of bytes gives the unfiltered rows of a picture of one colour |
| `PngImages.SolidFile` | scripts/behavior/run_desktop_first_paint.py:99-108 | the solid picture's file has its size and its colour everywhere |
| `PngImages.AssignThirds` | scripts/behavior/run_desktop_first_paint.py:121-122 | the strided slice assignment moves each noise byte to its own channel and touches no other |
| `PngImages.ScreenshotRows` | scripts/behavior/run_desktop_first_paint.py:115-123 | the row loop draws two noise bytes and a zero for each pixel |
| `PngImages.ScreenshotHasNoBlue` | scripts/behavior/run_desktop_first_paint.py:111-130 | the screenshot file loads to pixels with their two noise bytes and no blue |
| `TabCycle.Explore` | scripts/a11y/orca_audit.py:675-717 | for any Tab function, probing or not: the stops are the first iterates, pairwise different, none the start, at most 45; each outcome means what `Finished` says; "single" never happens |
| `TabCycle.FinishedOnce` | scripts/a11y/orca_audit.py:675-717 | at most one list of stops and one outcome can meet that meaning, so each outcome is returned exactly when its meaning holds |
| `TabCycle.RingWithoutStart` | scripts/a11y/orca_audit.py:697-705 | coming back to the first stop without passing the start is a cycle exactly from no focus or one of the fourteen window and container roles, written out, and a subcycle from any other |
| `TabCycle.KeptMeans` | scripts/a11y/orca_checks.py:235-250 | a probe keeps the stop exactly if focus is on it, or on an item of it where it is one of the ten containers |
| `TabCycle.LostProbe` | scripts/a11y/orca_audit.py:708-715 | a probe that does not ends the exploration with that outcome |
| `TabCycle.CycleIsComplete` | scripts/a11y/orca_audit.py:694-705 | after a reported cycle, however often Tab is pressed, focus stays on the start and the stops |
| `TabCycle.SameStopTwice` | scripts/a11y/orca_audit.py:697-705 | a subcycle shows two places Tab takes to one stop |
| `TabCycle.UndoableTabNeverTraps` | scripts/a11y/orca_audit.py:697-705 | when any key undoes Tab on the start and the stops, no subcycle is reported |
| `TabCycle.ReverseFlags` | scripts/a11y/orca_checks.py:221-232 | no flag exactly when every press mirrors the ring; otherwise the first press that does not |
| `TabCycle.CheckReverse` | scripts/a11y/orca_audit.py:800-810 | for cycles and subcycles of two or more stops, no flag exactly when the up to three presses lead over the stops from the last one back; whether the ring holds the start makes no difference |
| `TabCycle.WalksBack` | scripts/a11y/orca_audit.py:800-810 | an undoing key walks the stops backwards from where the exploration ended |
| `TabCycle.UndoneCycleIsNotFlagged` | scripts/a11y/orca_audit.py:800-810 | if Shift-Tab undoes Tab on a returned cycle, no reverse-order flag is raised, however the cycle closed |
| `TabCycle.ItemStopFlags` | scripts/a11y/orca_checks.py:202-218 | the flagged runs are exactly the maximal runs of three or more items of one list, in order |
| `Sorting.SortedPermutes` | scripts/behavior/run_frame_timing.py:146 | sorting keeps every sample |
| `Sorting.CountSorted` | scripts/behavior/run_frame_timing.py:146-154 | and every count of samples within a budget |
| `Sorting.SortedPrefix` | scripts/behavior/run_frame_timing.py:146-148 | the sample at a rank is within a budget exactly when more samples than its index are |
| `Sorting.BisectLeft` | scripts/behavior/run_frame_timing.py:119 | the bisected index separates smaller from other times |
| `FrameTiming.FrameDurations` | scripts/behavior/run_frame_timing.py:125-140 | the automaton's output is one duration for each frame, in order: a thousand times it is the microseconds from start to present |
| `FrameTiming.FramesExact` | scripts/behavior/run_frame_timing.py:125-140 | a start and a present are a frame if and only if nothing but other events lies between them |
| `FrameTiming.FramesDisjoint` | scripts/behavior/run_frame_timing.py:130-140 | each frame starts after the one before it was presented |
| `FrameTiming.DurationsFitSpan` | scripts/behavior/run_frame_timing.py:130-140 | with ordered timestamps the durations, in microseconds, add up to at most the time from the first event to the last present |
| `FrameTiming.InputLatencies` | scripts/behavior/run_frame_timing.py:109-122 | one latency for each input that some present follows, and it is the minimum a plain scan of the presents finds |
| `FrameTiming.BisectFindsFirst` | scripts/behavior/run_frame_timing.py:114-121 | the bisected present is the earliest at or after the input, and there is one exactly when the index is inside |
| `FrameTiming.LatenciesOnce` | scripts/behavior/run_frame_timing.py:109-122 | the events leave no choice of latencies: one list only meets that description |
| `FrameTiming.PercentileIsShare` | scripts/behavior/run_frame_timing.py:143-154 | a nearest-rank percentile is within a budget if and only if that share of the samples is |
| `FrameTiming.MergeEvents` | scripts/behavior/run_frame_timing.py:170-179 | the merged latencies and durations are those of every scenario, one after the other |
| `FrameTiming.MergedVerdict` | scripts/behavior/run_frame_timing.py:170-187 | merging cannot fail a budget every scenario meets, nor meet one every scenario fails |
| `InteractionTrace.Analyze` | scripts/analyze-interaction-trace.py:50-145 | the first failed check in the script's order, or the report of the whole trace |
| `InteractionTrace.ReadInteractions` | scripts/analyze-interaction-trace.py:76-89 | a set of seen identifiers decides that all are different; latencies in order |
| `InteractionTrace.ReadFrames` | scripts/analyze-interaction-trace.py:91-107 | comparing neighbours decides that all timestamps increase; durations and missed count |
| `InteractionTrace.EnoughFrames` | scripts/analyze-interaction-trace.py:62-74 | a 60-second window has 3600 slots or more and needs 3564 frames at 60 Hz, 7200 and 7128 at 120 Hz |
| `InteractionTrace.SlotsOfWindow` | scripts/analyze-interaction-trace.py:71-72 | the expected slots are the fewest that cover the window at its rate, the required frames the fewest that are 99 in a hundred of them |
| `InteractionTrace.AcceptedMeans` | scripts/analyze-interaction-trace.py:55-110 | a trace is accepted if and only if format, rate, window, counts, identifiers, times and both ends are as demanded, each condition written out on the document |
| `InteractionTrace.SameRank` | scripts/analyze-interaction-trace.py:43-47 | both scripts rank the same sample |
| `InteractionTrace.WithinMeans` | scripts/analyze-interaction-trace.py:112-143 | within limits if and only if, in nanoseconds of the document, 95% of the interactions take at most 50 ms, 95% of the frames at most 16 ms at 60 Hz or 8 ms at 120 Hz, and missed plus omitted slots are at most one in a hundred |
| `InteractionTrace.SparseCannotPass` | scripts/analyze-interaction-trace.py:69-74 | a passing trace reported, as not missed, at least 99% of what the output shows in the window: its length times its rate |
| `InteractionTrace.PercentAtMostOne` | scripts/analyze-interaction-trace.py:117-118 | the missed percentage lies in 0 to 100, and its limit in whole numbers |
| `InteractionTrace.OmittingLowersOnlyExcess` | scripts/analyze-interaction-trace.py:114-118 | leaving a frame out lowers the missed percentage if and only if the trace has more frames than slots, the frame was missed and not all were |
| `InteractionTrace.OmissionCanPass` | scripts/analyze-interaction-trace.py:114-143 | an accepted trace with one frame more than its slots is over the limits, and without one missed frame it is accepted and within them |
| `InteractionTrace.ShownWithinLimits` | scripts/analyze-interaction-trace.py:132-143 | the metrics are rounded to three places, and those of a passing trace are within the limits printed beside them |
| `Shrink.ShrinkLog` | scripts/behavior/monkey.py:1012-1035 | the loop returns the specified prefix length |
| `Shrink.SearchObserved` | scripts/behavior/monkey.py:1025-1035 | even with findings that come and go, the upper end was seen to reproduce and the lower end seen not to |
| `Shrink.ReturnedWasSeen` | scripts/behavior/monkey.py:1012-1035 | whatever is returned reproduced in one of at most `max_attempts` + 2 runs and is no longer than the log |
| `Shrink.FixedOracleGap` | scripts/behavior/monkey.py:1025-1035 | with findings fixed by the prefix: a failing prefix, at most max(1, ceil(n / 2^attempts)) longer than one that does not fail |
| `Shrink.OneMinimal` | scripts/behavior/monkey.py:1012-1035 | up to 16384 actions: nothing exactly when the log does not fail, zero exactly for a runaway that needs no action, else a failing prefix whose next shorter one does not fail |
| `Shrink.MonotoneShortest` | scripts/behavior/monkey.py:1014-1018 | under the documented assumption it is the shortest failing prefix |
| `Shrink.ShortestExactly` | scripts/behavior/monkey.py:1012-1035 | for any number of actions and attempts, the shortest failing prefix is returned if and only if every longer prefix that halving towards it tries fails too and halving gets there in time, which up to 2^attempts actions it does |
| `Shrink.LandsInTime` | scripts/behavior/monkey.py:1025-1029 | halving an interval of at most 2^attempts lengths reaches the prefix it goes towards |
| `Shrink.Reproduces` | scripts/behavior/monkey.py:986-1009 | a replay shows the kind if and only if it was seen right after some action with nothing raised before, or, with nothing seen or raised, in the closing checks, the idle one for runaway CPU only |
| `Shrink.SightingsStay` | scripts/behavior/monkey.py:990-999 | what is seen right after an action is seen in every longer replay |
| `Shrink.SightedIsShortest` | scripts/behavior/monkey.py:986-1035 | if the shortest failing prefix fails right after one of its actions, it is the one returned: no assumption of monotonicity is needed |
| `Shrink.NotAlwaysShortest` | scripts/behavior/monkey.py:1003-1006 | a runaway that the first action starts, the second calms and the fourth starts again: all four are returned although one is enough |
| `ProcStat.CommandCannotForge` | scripts/behavior/run_memory_soak.py:112-119 | for every command name, whatever spaces, newlines and parentheses it has, the parent and ticks read are the fields the kernel printed |
| `ProcStat.SplitJoined` | scripts/behavior/run_memory_soak.py:117 | splitting gives back the fields that were joined |
| `ProcStat.BlankEndsField` | scripts/behavior/run_memory_soak.py:117 | every blank character of Python ends a field |
| `ProcStat.MissingFieldSkipped` | scripts/behavior/run_memory_soak.py:118-119 | a line with fewer than fifteen fields after the command is skipped |
| `ProcStat.NoCommandSkipped` | scripts/behavior/run_memory_soak.py:116 | and so is a line without a parenthesis |
| `ProcessTree.Scan` | scripts/behavior/run_memory_soak.py:231-245 | the table of children holds exactly the parent links read, in scan order; the scan ends in an error exactly when some `stat` file is no text |
| `ProcessTree.DescendantSet` | scripts/behavior/run_memory_soak.py:225-257 | exactly the processes a chain of parent links joins to the root, for cyclic links too; each is queued exactly once; none when the root was not scanned |
| `ProcessTree.Enqueue` | scripts/behavior/run_memory_soak.py:253-256 | a process's unseen children join the set and the queue, once each |
| `ProcessTree.SampleTree` | scripts/behavior/run_memory_soak.py:260-312 | the count of the descendants, the sums over them and the seconds that the ticks make; nothing without a root; an error exactly when a text read on the way is none or the clock rate is not positive |
| `ProcessTree.SumWithout` | scripts/behavior/run_memory_soak.py:266-300 | the sums do not depend on the order of the processes |
| `ProcessTree.SumOfParts` | scripts/behavior/run_memory_soak.py:266-300 | splitting the tree splits every sum: no process is counted twice |
| `ProcessTree.OneProcess` | scripts/behavior/run_memory_soak.py:274-300 | a single process adds its user and system ticks together and each field of its files to its own sum, and nothing where a file gave nothing |
| `ProcessTree.Accumulate` | scripts/behavior/run_memory_soak.py:274-300 | one process adds its readings, and nothing where a file could not be read |
| `ProcessTree.AddUp` | scripts/behavior/run_memory_soak.py:266-300 | the loop adds every process once, in any order, or stops at a file that is no text |
| `SceneScores.RegionsInside` | scripts/compare_shell_scenes.py:46-58 | all boxes lie inside the image if and only if it is a window or at least 140 pixels high |
| `SceneScores.RowsOfRegions` | scripts/compare_shell_scenes.py:46-58 | the menu bar is the first 30 rows, the Dock the last 110, the desktop those between; the title bar the first 52, the content the rest; all at full width |
| `SceneScores.HistogramSums` | scripts/compare_shell_scenes.py:63-67 | histogram totals are the number of pixels, their sum and how many exceed the threshold |
| `SceneScores.ScoreIsAverage` | scripts/compare_shell_scenes.py:61-68 | a score is the rounded average and share of the pixels themselves |
| `SceneScores.ScoreMeans` | scripts/compare_shell_scenes.py:61-68 | in whole numbers, the mean to three places and the changed share to five; an empty region scores nothing |
| `SceneScores.CropSplit` | scripts/compare_shell_scenes.py:46-58 | cutting a box at a row cuts its pixels |
| `SceneScores.CropAt` | scripts/compare_shell_scenes.py:61-63 | a crop has every pixel of its box, in its place, and no other |
| `SceneScores.ScoreOfJoined` | scripts/compare_shell_scenes.py:61-68 | a joined region scores between the smaller and the larger of its parts, rounding included |
| `SceneScores.WholeNeedsPart` | scripts/compare_shell_scenes.py:46-68 | menu bar, desktop and Dock, or title bar and content, tile the image: the whole is over a limit only if a part is, and if all parts are |
| `SceneScores.Failures` | scripts/compare_shell_scenes.py:111-118 | one problem for each score over its limit, in order |
| `SceneScores.ProblemsExact` | scripts/compare_shell_scenes.py:111-118 | a region is blamed if and only if a score of it is strictly over the limit |
| `SceneScores.BlamesSomePart` | scripts/compare_shell_scenes.py:111-118 | a report that blames the whole image blames some part for the same reason, and one that blames all parts blames the whole |
| `Xcursor.Premultiply` | scripts/build-cursors.py:241-244 | the pixel loop premultiplies each pixel |
| `Xcursor.StoredPixel` | scripts/build-cursors.py:241-244 | bytes 4k to 4k + 3 of the output: each colour of pixel k times alpha over 255 rounded down, at most its alpha; alpha and opaque pixels unchanged |
| `Xcursor.WriteChunks` | scripts/build-cursors.py:223-250 | the running position is where each chunk will start |
| `Xcursor.WriteXcursor` | scripts/build-cursors.py:221-256 | the bytes written are header, table of contents and chunks |
| `Xcursor.FileRoundTrip` | scripts/build-cursors.py:221-256 | a reader written from the format (the letters Xcur, sizes 16 and 36, version 1.0, image type 0xFFFD0002) recovers every nominal size, dimension, hotspot, delay and the premultiplied pixels, in order |
| `Xcursor.ChunksTileFile` | scripts/build-cursors.py:225-255 | every table position is the start of its own chunk, and the chunks fill the file from the end of the table to its last byte |
| `Ipp.Response` | scripts/behavior/fake_cupsd.py:38-43 | the loop appends the groups after the operation attributes and ends the message |
| `Ipp.IntRoundTrip` | scripts/behavior/fake_cupsd.py:34-35 | a signed 32-bit value reads back |
| `Ipp.AttributeRead` | scripts/behavior/fake_cupsd.py:25-31 | an attribute is read back where it lies: tag, name and value |
| `Ipp.MessageRoundTrip` | scripts/behavior/fake_cupsd.py:38-43 | a message decodes to its request id, status, groups and attributes, in order: no value tag can be taken for a group tag |
| `FakeCupsd.Handle` | scripts/behavior/fake_cupsd.py:68-87 | the two reading loops return the request of the reads they were given, or close |
| `FakeCupsd.SentIsHandled` | scripts/behavior/fake_cupsd.py:68-87 | any version, operation and request id sent after a head that the first empty line ends, with an announced length that covers them, is read as that operation and id, however the bytes are split |
| `FakeCupsd.CutOffIsClosed` | scripts/behavior/fake_cupsd.py:80-86 | a body that breaks off before its announced length, or before the id, gets no reply |
| `FakeCupsd.SplitIrrelevant` | scripts/behavior/fake_cupsd.py:68-87 | with an announced length of 8 or more, or fewer than 8 body bytes, the request depends on the byte stream alone, however it is split into reads |
| `FakeCupsd.SplitMatters` | scripts/behavior/fake_cupsd.py:80-87 | otherwise it always does depend on it: two splits of the same bytes, one answered and one not |
| `FakeCupsd.Reply` | scripts/behavior/fake_cupsd.py:88-95 | the reply is the encoded content of the requested operation |
| `FakeCupsd.Serve` | scripts/behavior/fake_cupsd.py:68-101 | reading and replying together: the encoded content of what was read, or nothing |
| `FakeCupsd.ReplyAnswersRequest` | scripts/behavior/fake_cupsd.py:68-95 | from the bytes sent, however split: the reply decodes to the request's id, the operation attributes, and the printer for 0x4002, its name for 0x4001, the job for 0x000A, or status 0x0501 alone |
| `Framing.NulSplits` | scripts/behavior/run_installed_suite.py:187 | a NUL-free path and its NUL can be told from what follows |
| `Framing.SourceInputsDigest` | scripts/behavior/run_installed_suite.py:184-190 | the digest is of the frames of the files, in order |
| `Framing.StreamInjective` | scripts/behavior/run_installed_suite.py:184-189 | two different file lists never give the same bytes |
| `Framing.DigestsPinInputs` | scripts/behavior/run_installed_suite.py:173-190 | equal digests mean equal paths and contents, or a collision of the hash |
| `Snapshot.BuildSnapshot` | scripts/stage-beta-source.py:78-96 | copies exactly the listed items, links as links, and records and fingerprints their payloads |
| `Snapshot.VerifySnapshot` | scripts/stage-beta-source.py:126-169 | accepts if and only if every record's path is good, not yet listed and, however spelled, leads to an item of its size and digest, nothing unlisted but a known artifact link is there, and the fingerprint matches; an error names the first failure |
| `Snapshot.CheckRecords` | scripts/stage-beta-source.py:132-150 | the record loop: all good, or the first bad record and what is wrong with it |
| `Snapshot.PathOkMeans` | scripts/stage-beta-source.py:136-138 | a record's path is refused exactly if it starts with a slash or has a part of two dots |
| `Snapshot.PartsJoin` | scripts/stage-beta-source.py:136 | the parts are slash-free and give back the path |
| `Snapshot.PlainPlace` | scripts/stage-beta-source.py:140 | a path of plain parts leads to the item of that name |
| `Snapshot.NoiseDropped` | scripts/stage-beta-source.py:140 | a doubled slash, or a dot between slashes, leads nowhere else |
| `Snapshot.AcceptedExactly` | scripts/stage-beta-source.py:78-169 | against a built manifest a tree is accepted if and only if every listed path has its recorded size and digest and everything else is a known artifact link |
| `Snapshot.BuiltIsAccepted` | scripts/stage-beta-source.py:78-169 | what was built is accepted wherever it arrives unchanged |
| `Snapshot.AcceptedIsBuilt` | scripts/stage-beta-source.py:126-169 | what is accepted against a built manifest has the staged payloads, nothing missing, changed or added but artifact links, or else exhibits two payloads of one length that collide |
| `Snapshot.FingerprintPinsTree` | scripts/stage-beta-source.py:147-169 | two accepted trees with one fingerprint list the same paths with the same payloads, or exhibit a collision |
| `Snapshot.ReplacedItem` | scripts/stage-beta-source.py:134-168 | putting any item in any place of an accepted tree keeps it accepted if and only if the new item has the old one's size and digest where a record leads there, and is a known artifact link where no record spells it so |
| `Snapshot.ListedItemReplaced` | scripts/stage-beta-source.py:140-149 | a listed item may be replaced by exactly the items with its payload size and digest, whatever their kind |
| `Snapshot.UnlistedItem` | scripts/stage-beta-source.py:154-167 | an item that no record leads to is let through exactly if it is a link called `target` or `shell/target` to its own build directories |
| `Snapshot.LinkKindUnchecked` | scripts/stage-beta-source.py:140-149 | so a recorded link may arrive as a regular file holding its target |
| `Snapshot.FileKindUnchecked` | scripts/stage-beta-source.py:140-149 | and a recorded file as a link to what it held |
| `Snapshot.OtherSpelling` | scripts/stage-beta-source.py:135-140 | a dot and a slash in front of a path lead to the same item |
| `Snapshot.SecondSpelling` | scripts/stage-beta-source.py:134-150 | a further record of an item, under a spelling not used yet, is accepted |
| `MaterialSolve.Solve` | scripts/measure-reference.py:121-136 | the channel loop: three printed tints and the mean alpha |
| `MaterialSolve.Shown` | scripts/measure-reference.py:133 | the printed channel is the nearest integer, the even one of two, and 255 from there on |
| `MaterialSolve.ExactWithoutRounding` | scripts/measure-reference.py:127-131 | unrounded colours give back the true alpha, and above 0.02 the true tint |
| `MaterialSolve.RoundedSolution` | scripts/measure-reference.py:127-131 | with colours rounded to bytes, alpha is within 1/255 and the tint within 3/2 over the solved alpha |
| `MaterialSolve.ShownTint` | scripts/measure-reference.py:133 | so is the printed tint, up to half a level more; clamping at 255 does no harm |
| `Bytes.BigEndianRoundTrip` | scripts/behavior/fake_cupsd.py:25-43 | a number below 256 to the width is read back from its big-endian bytes |
| `Bytes.BigEndianOf` | scripts/verify-visual-suite.py:129-135 | and every string of bytes is the big-endian form of the number read from it |
| `Bytes.LittleEndianRoundTrip` | scripts/build-cursors.py:228-254 | little-endian likewise |
| `Bytes.WordWeights` | scripts/build-cursors.py:228-254 | which byte of a word weighs the most |
| `Rounding.RoundHalfEven` | scripts/compare_shell_scenes.py:68 | the nearest integer, and the even one of two |
| `Rounding.RoundedOnce` | scripts/compare_shell_scenes.py:68 | only one number of so many places is the rounding of another |

## Left out

- FakeAudio.Apply: what Python's `float` makes of a level text, with its percent sign stripped, is an argument; so is which output a node text names.
- WakeProtocol.NoLostWakeup: says nothing about which of two overlapping `wpctl` commands survives, since the script does not order them, nor about a writer killed while it wakes.
- WakeProtocol.Session.WakeMonitors: describes the loop when no other process steps in between; interleaved wakes are covered by the theorems over runs.
- PngContainer.StrictDimensions: the manifest and the checks around the file are not modelled.
- PngImages.ScreenshotHasNoBlue: random bytes are an argument, and the compression level does not matter to it.
- TabCycle.Explore: the speech, settle times and flags of one key press, the contents of a probe and the reachability check are not modelled; a stop is its key, role and parent.
- TabCycle.ItemStopFlags: flags carry the run, not the names in the message.
- FrameTiming.Percentile: percentiles above 1 are excluded, because the script indexes out of range there; the scripts use 0.95.
- InteractionTrace.NearestRank: the percentile is positive and at most 1, and the sample not empty, as everywhere the script calls it.
- InteractionTrace.Analyze: JSON types and exact field sets are given by the datatypes; reading the file is not modelled.
- Shrink.ShrinkLog: a replay is one call of an oracle, which may differ from call to call; a relaunch that raises, waiting times and the log lines are not modelled.
- Shrink.Reproduces: the checks of an application are what they find after each action; how they look is not modelled.
- ProcStat.Parse: `int()` is a parameter.
- ProcessTree.SampleTree: the texts of `status` and `smaps_rollup` arrive parsed, and readings are not negative.
- SceneScores.WholeNeedsPart: screens lower than 140 pixels are excluded, because their desktop box has its top below its bottom and cannot be cropped.
- SceneScores.ScoreOf: blurring, resizing and the luminance difference happen before and are not modelled.
- Xcursor.WriteXcursor: the drawing and scaling of the cursor artwork, and the copies under other names, are not modelled; pixels are groups of four bytes.
- Ipp.Text: texts are ASCII, as all the server's texts are.
- FakeCupsd.Reply: the printer's and job's attributes are an argument, and the fixed HTTP header around the reply is not modelled.
- FakeCupsd.Handle: how the header lines give a length is a parameter.
- Framing.SourceInputsDigest: collecting and sorting the files is not modelled; it takes them in order.
- Snapshot.BuildSnapshot: the listed items exist and are files or links, which the listing before it ensures; the git patch, the head commit and the excluded names are not modelled.
- Snapshot.VerifySnapshot: the tree is a map from relative paths without directories; the source directory itself being missing or a link is not modelled.
- MaterialSolve.Solve: reading the two pixels and formatting the result are not modelled.
- The idle-CPU percentages, report accounting and behaviour-report completeness checks, the image list of the visual suite and the session loop of the monkey are simple sums, counts and lookups over fixed fields.
- The AT-SPI, D-Bus, PipeWire, Sway, systemd, SSH and git driving, icon and wallpaper drawing, and everything outside `scripts/` are not part of this model.
