/** The macOS file watcher's `fsEventsCallback`: which events of one
    FSEvents batch call back. There is no debounce; resolving the watched
    path to its canonical form is not modelled, so `filename` is the path
    the watcher compares against. */
module MacWatcher {

  /** `kFSEventStreamEventFlagItem*` bits. */
  const ITEM_CREATED: bv32 := 0x100
  const ITEM_REMOVED: bv32 := 0x200
  const ITEM_MODIFIED: bv32 := 0x1000
  const ITEM_IS_FILE: bv32 := 0x1_0000

  /** One event of a batch: the path and its flags. */
  datatype FsEvent = FsEvent(path: string, flags: bv32)

  predicate Has(flags: bv32, bit: bv32) {
    flags & bit != 0
  }

  /** The flag test: a file, created or modified, and not removed. */
  predicate FileWritten(flags: bv32) {
    Has(flags, ITEM_IS_FILE) && (Has(flags, ITEM_CREATED) || Has(flags, ITEM_MODIFIED)) && !Has(flags, ITEM_REMOVED)
  }

  /** An event that calls back: the flag test and exactly the watched path. */
  predicate Fires(filename: string, e: FsEvent) {
    FileWritten(e.flags) && e.path == filename
  }

  /** The callbacks of the loop from index `i` on: the indices of the events
      that fire. */
  function CallbacksFrom(filename: string, events: seq<FsEvent>, i: nat): (ks: seq<nat>)
    requires i <= |events|
    ensures forall j :: 0 <= j < |ks| ==> i <= ks[j] < |events| && Fires(filename, events[ks[j]])
    ensures forall j, l :: 0 <= j < l < |ks| ==> ks[j] < ks[l]
    ensures forall k {:trigger k in ks} :: i <= k < |events| && Fires(filename, events[k]) ==> k in ks
    decreases |events| - i
  {
    if i == |events| then []
    else if Fires(filename, events[i]) then [i] + CallbacksFrom(filename, events, i + 1)
    else CallbacksFrom(filename, events, i + 1)
  }

  /** `fsEventsCallback` on one batch: every event that passes the test
      calls back once, in batch order, and no other event does. */
  function Callbacks(filename: string, events: seq<FsEvent>): (ks: seq<nat>)
    ensures forall k :: 0 <= k < |events| ==> (k in ks <==> Fires(filename, events[k]))
    ensures forall j, l :: 0 <= j < l < |ks| ==> ks[j] < ks[l]
  {
    CallbacksFrom(filename, events, 0)
  }

  /** A removal blocks the callback whatever else the flags say. */
  lemma RemovedNeverFires(filename: string, events: seq<FsEvent>, k: nat)
    requires k < |events| && Has(events[k].flags, ITEM_REMOVED)
    ensures k !in Callbacks(filename, events)
  {
  }

  /** A batch of writes to the watched file calls back once per event:
      nothing is coalesced. */
  lemma EveryWriteFires(filename: string, events: seq<FsEvent>)
    requires forall k :: 0 <= k < |events| ==> events[k] == FsEvent(filename, ITEM_IS_FILE | ITEM_MODIFIED)
    ensures |Callbacks(filename, events)| == |events|
  {
    forall k | 0 <= k < |events| ensures Fires(filename, events[k]) {
      assert (ITEM_IS_FILE | ITEM_MODIFIED) & ITEM_REMOVED == 0;
      assert (ITEM_IS_FILE | ITEM_MODIFIED) & ITEM_IS_FILE != 0;
      assert (ITEM_IS_FILE | ITEM_MODIFIED) & ITEM_MODIFIED != 0;
    }
    AllIndices(filename, events, 0);
  }

  lemma {:induction false} AllIndices(filename: string, events: seq<FsEvent>, i: nat)
    requires i <= |events|
    requires forall k :: i <= k < |events| ==> Fires(filename, events[k])
    ensures |CallbacksFrom(filename, events, i)| == |events| - i
    decreases |events| - i
  {
    if i < |events| {
      FiringStep(filename, events, i);
      AllIndices(filename, events, i + 1);
    }
  }

  /** An event that fires heads the callbacks from its index. */
  lemma FiringStep(filename: string, events: seq<FsEvent>, i: nat)
    requires i < |events| && Fires(filename, events[i])
    ensures CallbacksFrom(filename, events, i) == [i] + CallbacksFrom(filename, events, i + 1)
  {
  }
}
