/** The Windows file watcher: splitting the watched path in
    `startWatching`, the walk over one completion's chain of
    `FILE_NOTIFY_INFORMATION` entries, the filter on action and name, the
    50 ms debounce, and the guard in `stopWatching`. Names arrive already
    converted from UTF-16; time is a whole number of milliseconds and the
    clock readings are parameters, one per entry. */
module WindowsWatcher {
  import opened Wrappers
  import opened Text
  import Paths

  /** The size of the buffer `ReadDirectoryChangesW` fills. */
  const BUFFER_SIZE: nat := 4096

  const DEBOUNCE_MS: int := 50

  /** `lastEventTime` starts this far before the thread starts. */
  const INITIAL_OFFSET_MS: int := 100_000

  /** `FILE_ACTION_*` codes. */
  const FILE_ACTION_ADDED: nat := 1
  const FILE_ACTION_REMOVED: nat := 2
  const FILE_ACTION_MODIFIED: nat := 3
  const FILE_ACTION_RENAMED_OLD_NAME: nat := 4
  const FILE_ACTION_RENAMED_NEW_NAME: nat := 5

  // ----- the notification chain -----

  /** What one entry reports: the action and the file name relative to the
      watched directory. */
  datatype Change = Change(action: nat, fileName: string)

  /** One `FILE_NOTIFY_INFORMATION` entry: the offset from this entry to the
      next, 0 on the last one. */
  datatype Notification = Notification(nextEntryOffset: nat, change: Change)

  /** The changes of the chain starting at byte `pos` of the buffer, which
      maps the offset of each entry to it: the walk follows
      `NextEntryOffset` and stops after the entry whose offset is 0. */
  function Chain(buffer: map<nat, Notification>, pos: nat): (cs: seq<Change>)
    decreases BUFFER_SIZE - pos
  {
    if pos >= BUFFER_SIZE || pos !in buffer then []
    else
      var n := buffer[pos];
      if n.nextEntryOffset == 0 then [n.change]
      else [n.change] + Chain(buffer, pos + n.nextEntryOffset)
  }

  /** The bytes an entry takes: three 32-bit fields and the UTF-16 name,
      rounded up to the next 32-bit boundary. */
  function EntrySize(c: Change): (n: nat)
    ensures n >= 12 && n % 4 == 0
  {
    (12 + 2 * |c.fileName| + 3) / 4 * 4
  }

  function ChainSize(cs: seq<Change>): nat
    decreases |cs|
  {
    if cs == [] then 0 else EntrySize(cs[0]) + ChainSize(cs[1..])
  }

  /** The buffer the system writes for a sequence of changes, the first at
      byte `base`. */
  function Layout(cs: seq<Change>, base: nat): (buffer: map<nat, Notification>)
    ensures forall k :: k in buffer ==> base <= k
    decreases |cs|
  {
    if cs == [] then map[]
    else
      var size := EntrySize(cs[0]);
      Layout(cs[1..], base + size)[base := Notification(if |cs| == 1 then 0 else size, cs[0])]
  }

  /** An entry written below the walk's position does not change the walk. */
  lemma {:induction false} ChainIgnoresBelow(buffer: map<nat, Notification>, b: nat, n: Notification, pos: nat)
    requires b < pos
    ensures Chain(buffer[b := n], pos) == Chain(buffer, pos)
    decreases BUFFER_SIZE - pos
  {
    if pos < BUFFER_SIZE && pos in buffer && buffer[pos].nextEntryOffset != 0 {
      ChainIgnoresBelow(buffer, b, n, pos + buffer[pos].nextEntryOffset);
    }
  }

  /** The walk reads back every change the system wrote, in order, once
      each, as long as the chain fits the buffer. */
  lemma {:induction false} ChainRoundTrip(cs: seq<Change>, base: nat)
    requires base + ChainSize(cs) <= BUFFER_SIZE
    ensures Chain(Layout(cs, base), base) == cs
    decreases |cs|
  {
    if cs != [] {
      var size := EntrySize(cs[0]);
      var inner := Layout(cs[1..], base + size);
      var n := Notification(if |cs| == 1 then 0 else size, cs[0]);
      assert Layout(cs, base) == inner[base := n];
      if |cs| > 1 {
        ChainRoundTrip(cs[1..], base + size);
        ChainIgnoresBelow(inner, base, n, base + size);
        assert cs == [cs[0]] + cs[1..];
      }
    }
  }

  // ----- filter and debounce -----

  /** The actions that count as the file being written. */
  predicate RelevantAction(action: nat) {
    action == FILE_ACTION_MODIFIED || action == FILE_ACTION_ADDED || action == FILE_ACTION_RENAMED_NEW_NAME
  }

  /** An entry that may call back: the watched name exactly, and a relevant
      action. */
  predicate Relevant(filename: string, c: Change) {
    c.fileName == filename && RelevantAction(c.action)
  }

  /** The walk's decisions: a relevant entry calls back if at least
      `DEBOUNCE_MS` passed since `lastEventTime`, which moves to its time
      only then. The final `lastEventTime` and, per entry, whether the
      callback ran. */
  function Debounce(filename: string, last: int, cs: seq<Change>, clock: seq<int>): (r: (int, seq<bool>))
    requires |clock| == |cs|
    ensures |r.1| == |cs|
    ensures forall k :: 0 <= k < |cs| && r.1[k] ==> Relevant(filename, cs[k])
    decreases |cs|
  {
    if cs == [] then (last, [])
    else if Relevant(filename, cs[0]) && clock[0] - last >= DEBOUNCE_MS then
      var rest := Debounce(filename, clock[0], cs[1..], clock[1..]);
      (rest.0, [true] + rest.1)
    else
      var rest := Debounce(filename, last, cs[1..], clock[1..]);
      (rest.0, [false] + rest.1)
  }

  /** The clock readings of the entries that called back. */
  function FiredTimes(clock: seq<int>, fired: seq<bool>): (ts: seq<int>)
    requires |fired| == |clock|
    decreases |clock|
  {
    if clock == [] then []
    else if fired[0] then [clock[0]] + FiredTimes(clock[1..], fired[1..])
    else FiredTimes(clock[1..], fired[1..])
  }

  /** Times each at least `DEBOUNCE_MS` after the one before, the first
      after `last`. */
  predicate Spaced(last: int, ts: seq<int>)
    decreases |ts|
  {
    ts == [] || (ts[0] - last >= DEBOUNCE_MS && Spaced(ts[0], ts[1..]))
  }

  /** Callbacks are spaced: each comes at least `DEBOUNCE_MS` after the
      previous one (the first after the starting `lastEventTime`), and
      `lastEventTime` ends as the time of the last callback. */
  lemma {:induction false} CallbacksSpaced(filename: string, last: int, cs: seq<Change>, clock: seq<int>)
    requires |clock| == |cs|
    ensures var r := Debounce(filename, last, cs, clock);
            var ts := FiredTimes(clock, r.1);
            Spaced(last, ts) && r.0 == (if ts == [] then last else ts[|ts| - 1])
    decreases |cs|
  {
    if cs != [] {
      var r := Debounce(filename, last, cs, clock);
      if Relevant(filename, cs[0]) && clock[0] - last >= DEBOUNCE_MS {
        CallbacksSpaced(filename, clock[0], cs[1..], clock[1..]);
        var rest := Debounce(filename, clock[0], cs[1..], clock[1..]);
        assert r == (rest.0, [true] + rest.1);
        assert r.1[1..] == rest.1;
        var ts, restTs := FiredTimes(clock, r.1), FiredTimes(clock[1..], rest.1);
        assert ts == [clock[0]] + restTs;
        assert ts[1..] == restTs;
      } else {
        CallbacksSpaced(filename, last, cs[1..], clock[1..]);
        var rest := Debounce(filename, last, cs[1..], clock[1..]);
        assert r == (rest.0, [false] + rest.1);
        assert r.1[1..] == rest.1;
        assert FiredTimes(clock, r.1) == FiredTimes(clock[1..], rest.1);
      }
    }
  }

  /** A relevant entry far enough from the last callback always calls back;
      so does the first relevant entry after the thread starts. */
  lemma FirstRelevantFires(filename: string, start: int, cs: seq<Change>, clock: seq<int>)
    requires |clock| == |cs| && 0 < |cs| && Relevant(filename, cs[0]) && clock[0] >= start
    ensures Debounce(filename, start - INITIAL_OFFSET_MS, cs, clock).1[0]
  {
  }

  /** Removing or renaming the file away never calls back. */
  lemma DeletionNeverFires(filename: string, last: int, cs: seq<Change>, clock: seq<int>, k: nat)
    requires |clock| == |cs| && k < |cs|
    requires cs[k].action in {FILE_ACTION_REMOVED, FILE_ACTION_RENAMED_OLD_NAME}
    ensures !Debounce(filename, last, cs, clock).1[k]
  {
  }

  /** Writes 30 ms apart call back every other time: a suppressed entry
      leaves `lastEventTime` where it was. */
  lemma BurstFiresEveryOther(filename: string)
    ensures var c := Change(FILE_ACTION_MODIFIED, filename);
            Debounce(filename, -INITIAL_OFFSET_MS, [c, c, c], [0, 30, 60]).1 == [true, false, true]
  {
    var c := Change(FILE_ACTION_MODIFIED, filename);
    assert [c, c, c][1..] == [c, c] && [0, 30, 60][1..] == [30, 60];
    assert [c, c][1..] == [c] && [30, 60][1..] == [60];
    assert Debounce(filename, 0, [c], [60]).1 == [true];
    assert Debounce(filename, 0, [c, c], [30, 60]).1 == [false, true];
  }

  /** One completed `ReadDirectoryChangesW`: zero bytes (an overflow or a
      spurious wake-up) is skipped; otherwise the chain from byte 0 is
      walked. This is one pass of the watch loop; the loop that issues the
      next read and waits again is not iterated here, and successive
      completions compose by passing the returned `lastEventTime` on, as
      `Debounce` does within one chain. */
  function HandleCompletion(filename: string, last: int, bytesReturned: nat,
                            buffer: map<nat, Notification>, clock: seq<int>): (r: (int, seq<bool>))
    requires bytesReturned > 0 ==> |clock| == |Chain(buffer, 0)|
    ensures bytesReturned == 0 ==> r == (last, [])
    ensures bytesReturned > 0 ==> |r.1| == |Chain(buffer, 0)|
  {
    if bytesReturned == 0 then (last, [])
    else Debounce(filename, last, Chain(buffer, 0), clock)
  }

  // ----- startWatching and stopWatching -----

  /** The handles and flags `stopWatching` looks at. */
  datatype Watcher = Watcher(dirPath: string, filename: string, running: bool,
                             stopEventOpen: bool, directoryOpen: bool, threadJoinable: bool)

  /** What `startWatching` can fail on, with the system error code. */
  datatype StartFailure = DirectoryFailed(code: nat) | StopEventFailed(code: nat)

  /** `startWatching` on an absolute path: the directory and the file name
      are split off it, then the directory and the stop event are opened. */
  function StartWatching(absolutePath: string, failure: Option<StartFailure>): (r: Result<Watcher>)
    ensures r.Ok? <==> failure.None?
    ensures r.Ok? ==> r.value.running && r.value.dirPath == Paths.ParentPath(absolutePath)
                      && r.value.filename == Paths.Filename(absolutePath)
    ensures failure == Some(DirectoryFailed(0)) ==> r == Err("Failed to open directory for watching: 0")
  {
    match failure
    case Some(DirectoryFailed(code)) => Err("Failed to open directory for watching: " + Decimal(code))
    case Some(StopEventFailed(code)) => Err("Failed to create stop event: " + Decimal(code))
    case None => Ok(Watcher(Paths.ParentPath(absolutePath), Paths.Filename(absolutePath), true, true, true, true))
  }

  /** The watched directory and name put back together give the path. */
  lemma StartSplitsPath(absolutePath: string)
    requires !(2 <= |absolutePath| && absolutePath[0] == '/' && absolutePath[1] == '/')
    ensures var w := StartWatching(absolutePath, None).value;
            Paths.Join(w.dirPath, w.filename) == absolutePath
  {
    Paths.SplitRejoins(absolutePath);
  }

  /** What `stopWatching` does, in order. */
  datatype Effect = SignalStop | JoinThread | CloseStopEvent | CloseDirectory

  /** `stopWatching`: nothing when the watcher is not running; otherwise
      signal the thread, join it and close both handles, each only if it is
      there. */
  function StopWatching(w: Watcher): (r: (Watcher, seq<Effect>))
    ensures !w.running ==> r == (w, [])
    ensures w.running ==> !r.0.running && !r.0.stopEventOpen && !r.0.directoryOpen && !r.0.threadJoinable
    ensures w.running ==> (JoinThread in r.1 <==> w.threadJoinable)
                          && (CloseDirectory in r.1 <==> w.directoryOpen)
    ensures w.running && w.stopEventOpen ==> |r.1| > 0 && r.1[0] == SignalStop
  {
    if !w.running then (w, [])
    else
      var effects := (if w.stopEventOpen then [SignalStop] else [])
                     + (if w.threadJoinable then [JoinThread] else [])
                     + (if w.stopEventOpen then [CloseStopEvent] else [])
                     + (if w.directoryOpen then [CloseDirectory] else []);
      (w.(running := false, stopEventOpen := false, directoryOpen := false, threadJoinable := false), effects)
  }

  /** A second `stopWatching`, as the destructor makes after an explicit
      one, does nothing. */
  lemma StopTwice(w: Watcher)
    ensures var once := StopWatching(w).0; StopWatching(once) == (once, [])
  {
  }
}
