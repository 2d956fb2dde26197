/** The Linux file watcher's `watchFile`: the walk over the records one
    `read` of the inotify descriptor returns, the filter on the watched
    file's name, and the 50 ms debounce. Time is a whole number of
    milliseconds on the steady clock; the clock readings the loop would take
    are parameters, one per record. */
module LinuxWatcher {
  import opened Wrappers
  import opened MachineInts
  import FileUtils

  /** `sizeof(struct inotify_event)`: four 32-bit fields (`wd`, `mask`,
      `cookie`, `len`) before the name. */
  const EVENT_SIZE: nat := 16

  /** Matching events closer together than this are treated as one write. */
  const DEBOUNCE_MS: int := 50

  /** `lastEventTime` starts this far before the thread starts, so the first
      matching event is never debounced. */
  const INITIAL_OFFSET_MS: int := 100_000

  /** A file name as the kernel reports it: bytes, no NUL. */
  type Name = seq<byte>

  // ----- the record walk -----

  /** The bytes of a C string up to its first NUL. */
  function CName(bs: seq<byte>): (n: Name)
    decreases |bs|
  {
    if bs == [] || bs[0] == 0 then [] else [bs[0]] + CName(bs[1..])
  }

  /** `CName(bs)` is the longest prefix of `bs` without a NUL: a NUL
      follows it unless it is all of `bs`. */
  lemma {:induction false} CNameIsPrefix(bs: seq<byte>)
    ensures var n := CName(bs);
            |n| <= |bs| && n == bs[..|n|]
            && (forall i :: 0 <= i < |n| ==> n[i] != 0)
            && (|n| < |bs| ==> bs[|n|] == 0)
    decreases |bs|
  {
    if bs != [] && bs[0] != 0 {
      CNameIsPrefix(bs[1..]);
      var n := CName(bs[1..]);
      assert CName(bs) == [bs[0]] + n;
      assert bs[..|n| + 1] == [bs[0]] + bs[1..][..|n|];
    }
  }

  /** The `len` field of the record at the start of `buf`, stored in host
      (little-endian) order. */
  function LenField(buf: seq<byte>): (len: u32)
    requires EVENT_SIZE <= |buf|
  {
    FileUtils.WordOf(buf[12], buf[13], buf[14], buf[15])
  }

  /** The names `watchFile`'s inner loop sees in one buffer: each record is
      `EVENT_SIZE` bytes of header, then `len` bytes holding the
      NUL-padded name, and the walk moves on by `EVENT_SIZE + len` while
      bytes remain. */
  function RecordNames(buf: seq<byte>): (names: seq<Name>)
    decreases |buf|
  {
    if |buf| < EVENT_SIZE then []
    else
      var end := EVENT_SIZE + LenField(buf);
      if end >= |buf| then [CName(buf[EVENT_SIZE..])]
      else [CName(buf[EVENT_SIZE..end])] + RecordNames(buf[end..])
  }

  /** One inotify record as the kernel writes it. */
  datatype Event = Event(wd: u32, mask: u32, cookie: u32, name: Name, len: u32)

  /** A record the kernel can produce: no name and `len` 0, or a name with
      at least one NUL after it inside `len` bytes. */
  predicate WellFormed(e: Event) {
    (e.name == [] && e.len == 0)
    || (|e.name| < e.len && forall i :: 0 <= i < |e.name| ==> e.name[i] != 0)
  }

  function Zeros(n: nat): (z: seq<byte>)
    ensures |z| == n && forall i :: 0 <= i < n ==> z[i] == 0
  {
    seq(n, _ => 0)
  }

  /** A record's bytes: the header fields, then the name padded with NULs
      to `len` bytes. */
  function EventBytes(e: Event): (bs: seq<byte>)
    requires WellFormed(e)
    ensures |bs| == EVENT_SIZE + e.len
  {
    FileUtils.WordBytes(e.wd) + FileUtils.WordBytes(e.mask) + FileUtils.WordBytes(e.cookie)
    + FileUtils.WordBytes(e.len) + e.name + Zeros(e.len - |e.name|)
  }

  /** The buffer a `read` fills with a sequence of records. */
  function Layout(es: seq<Event>): (buf: seq<byte>)
    requires forall i :: 0 <= i < |es| ==> WellFormed(es[i])
    decreases |es|
  {
    if es == [] then [] else EventBytes(es[0]) + Layout(es[1..])
  }

  function Names(es: seq<Event>): (ns: seq<Name>)
    ensures |ns| == |es| && forall i :: 0 <= i < |es| ==> ns[i] == es[i].name
  {
    seq(|es|, i requires 0 <= i < |es| => es[i].name)
  }

  /** The name of a record, read back from its padded bytes. */
  lemma PaddedName(e: Event)
    requires WellFormed(e)
    ensures CName(e.name + Zeros(e.len - |e.name|)) == e.name
  {
    if e.len > 0 {
      CNameStopsAtNul(e.name, Zeros(e.len - |e.name|));
    }
  }

  /** A name without NUL followed by a NUL reads back as itself. */
  lemma {:induction false} CNameStopsAtNul(name: Name, tail: seq<byte>)
    requires forall i :: 0 <= i < |name| ==> name[i] != 0
    requires 0 < |tail| && tail[0] == 0
    ensures CName(name + tail) == name
    decreases |name|
  {
    if name != [] {
      assert (name + tail)[1..] == name[1..] + tail;
      CNameStopsAtNul(name[1..], tail);
      assert name == [name[0]] + name[1..];
    }
  }

  /** The walk reads a record's length and name back from its bytes and
      lands on the next record. */
  lemma {:induction false} ReadsOneRecord(e: Event, rest: seq<byte>)
    requires WellFormed(e)
    ensures var buf := EventBytes(e) + rest;
            EVENT_SIZE <= |buf| && LenField(buf) == e.len
            && buf[EVENT_SIZE..EVENT_SIZE + e.len] == e.name + Zeros(e.len - |e.name|)
            && buf[EVENT_SIZE + e.len..] == rest
  {
    var head := FileUtils.WordBytes(e.wd) + FileUtils.WordBytes(e.mask) + FileUtils.WordBytes(e.cookie);
    var lenBytes := FileUtils.WordBytes(e.len);
    var body := e.name + Zeros(e.len - |e.name|);
    assert EventBytes(e) == head + lenBytes + body;
    var buf := head + lenBytes + body + rest;
    Parts(head, lenBytes, body, rest);
    FileUtils.WordBytesRoundTrip(e.len);
    assert buf[12] == lenBytes[0] && buf[13] == lenBytes[1] && buf[14] == lenBytes[2] && buf[15] == lenBytes[3];
  }

  /** Where each of four concatenated pieces sits. */
  lemma Parts(a: seq<byte>, b: seq<byte>, c: seq<byte>, d: seq<byte>)
    ensures var s := a + b + c + d;
            s[|a|..|a| + |b|] == b && s[|a| + |b|..|a| + |b| + |c|] == c && s[|a| + |b| + |c|..] == d
  {
  }

  /** The walk visits every record exactly once, in order, and reads each
      one's name. */
  lemma {:induction false} WalkRoundTrip(es: seq<Event>)
    requires forall i :: 0 <= i < |es| ==> WellFormed(es[i])
    ensures RecordNames(Layout(es)) == Names(es)
    decreases |es|
  {
    if es != [] {
      WalkStep(es[0], Layout(es[1..]));
      WalkRoundTrip(es[1..]);
      assert Names(es) == [es[0].name] + Names(es[1..]);
    }
  }

  /** The walk reads the first record's name and continues on what follows. */
  lemma WalkStep(e: Event, rest: seq<byte>)
    requires WellFormed(e)
    ensures RecordNames(EventBytes(e) + rest) == [e.name] + RecordNames(rest)
  {
    var buf := EventBytes(e) + rest;
    ReadsOneRecord(e, rest);
    PaddedName(e);
    var end := EVENT_SIZE + e.len;
    if end >= |buf| {
      assert rest == [];
      assert buf[EVENT_SIZE..] == buf[EVENT_SIZE..end];
    }
  }

  // ----- the walk as written -----

  /** The names the loop compares as written: `buf` is the whole array, of
      which the last `read` filled the first `length` bytes. `event->name` is
      read as a C string from the record's name field on, so a record with
      `len` 0 shows whatever follows its header: the next record's header,
      or bytes left in the array by an earlier read. */
  function WalkAsWritten(buf: seq<byte>, length: int): (names: seq<Name>)
    decreases |buf|
  {
    if length <= 0 || |buf| < EVENT_SIZE then []
    else
      var end := EVENT_SIZE + LenField(buf);
      [CName(buf[EVENT_SIZE..])]
      + (if end >= |buf| then [] else WalkAsWritten(buf[end..], length - end))
  }

  /** The name the source sees for record `e` when `after` follows it in
      the array: its own name when it has one, else the C string that
      starts right after its header. */
  function SeenName(e: Event, after: seq<byte>): Name {
    if e.len > 0 then e.name else CName(after)
  }

  /** The array after a read that wrote the records `es` over its start,
      with `stale` the bytes an earlier read left behind them. */
  function LayoutThen(es: seq<Event>, stale: seq<byte>): (buf: seq<byte>)
    requires forall i :: 0 <= i < |es| ==> WellFormed(es[i])
    ensures |buf| == |Layout(es)| + |stale|
    decreases |es|
  {
    if es == [] then stale else EventBytes(es[0]) + LayoutThen(es[1..], stale)
  }

  /** The records read, then the stale bytes. */
  lemma {:induction false} LayoutThenSplits(es: seq<Event>, stale: seq<byte>)
    requires forall i :: 0 <= i < |es| ==> WellFormed(es[i])
    ensures LayoutThen(es, stale) == Layout(es) + stale
    decreases |es|
  {
    if es != [] {
      LayoutThenSplits(es[1..], stale);
      assert EventBytes(es[0]) + (Layout(es[1..]) + stale) == EventBytes(es[0]) + Layout(es[1..]) + stale;
    }
  }

  /** `SeenName` for each record of `es`, with `stale` after the last one. */
  function SeenNames(es: seq<Event>, stale: seq<byte>): (ns: seq<Name>)
    requires forall i :: 0 <= i < |es| ==> WellFormed(es[i])
    ensures |ns| == |es|
    ensures forall i :: 0 <= i < |es| && es[i].len > 0 ==> ns[i] == es[i].name
    decreases |es|
  {
    if es == [] then []
    else [SeenName(es[0], LayoutThen(es[1..], stale))] + SeenNames(es[1..], stale)
  }

  /** The walk as written over a read of the records `es` into an array
      that held `stale` bytes after them. */
  lemma {:induction false} AsWrittenWalk(es: seq<Event>, stale: seq<byte>)
    requires forall i :: 0 <= i < |es| ==> WellFormed(es[i])
    ensures WalkAsWritten(LayoutThen(es, stale), |Layout(es)|) == SeenNames(es, stale)
    decreases |es|
  {
    if es != [] {
      AsWrittenUnfold(es, stale);
      AsWrittenWalk(es[1..], stale);
    }
  }

  /** The walk as written over `es`: the first record's seen name, then the
      walk over the other records. */
  lemma AsWrittenUnfold(es: seq<Event>, stale: seq<byte>)
    requires es != [] && forall i :: 0 <= i < |es| ==> WellFormed(es[i])
    ensures WalkAsWritten(LayoutThen(es, stale), |Layout(es)|)
            == [SeenName(es[0], LayoutThen(es[1..], stale))]
               + WalkAsWritten(LayoutThen(es[1..], stale), |Layout(es[1..])|)
  {
    var after := LayoutThen(es[1..], stale);
    var length := |Layout(es[1..])|;
    assert LayoutThen(es, stale) == EventBytes(es[0]) + after;
    assert |Layout(es)| == EVENT_SIZE + es[0].len + length;
    RecordAt(es[0], after);
    WalkAt(EventBytes(es[0]) + after, length);
  }

  /** What the walk as written reads from a record followed by `after`:
      its `len`, the name it compares, and where the next record starts. */
  lemma RecordAt(e: Event, after: seq<byte>)
    requires WellFormed(e)
    ensures var buf := EventBytes(e) + after;
            EVENT_SIZE + e.len <= |buf| && LenField(buf) == e.len
            && buf[EVENT_SIZE + e.len..] == after
            && CName(buf[EVENT_SIZE..]) == SeenName(e, after)
  {
    var buf := EventBytes(e) + after;
    var padding := Zeros(e.len - |e.name|);
    ReadsOneRecord(e, after);
    assert buf[EVENT_SIZE..] == e.name + (padding + after) by {
      assert buf[EVENT_SIZE..] == buf[EVENT_SIZE..EVENT_SIZE + e.len] + buf[EVENT_SIZE + e.len..];
    }
    if e.len > 0 {
      CNameStopsAtNul(e.name, padding + after);
    }
  }

  /** One step of the walk as written, when the first record lies within
      `buf`: the name at its header, then the walk from the next record on. */
  lemma WalkAt(buf: seq<byte>, length: nat)
    requires EVENT_SIZE <= |buf| && EVENT_SIZE + LenField(buf) <= |buf|
    ensures var end := EVENT_SIZE + LenField(buf);
            WalkAsWritten(buf, end + length) == [CName(buf[EVENT_SIZE..])] + WalkAsWritten(buf[end..], length)
  {
    if EVENT_SIZE + LenField(buf) == |buf| {
      assert buf[|buf|..] == [];
    }
  }

  /** When every record read has a name, the walk as written and the walk
      within records agree: both give the records' names. */
  lemma NamedRecordsAgree(es: seq<Event>, stale: seq<byte>)
    requires forall i :: 0 <= i < |es| ==> WellFormed(es[i]) && es[i].len > 0
    ensures WalkAsWritten(LayoutThen(es, stale), |Layout(es)|) == RecordNames(Layout(es)) == Names(es)
  {
    AsWrittenWalk(es, stale);
    WalkRoundTrip(es);
  }

  /** The final read of `stopWatching`: after a read that delivered `prev`,
      a change to the watched file, the removal of the watch delivers one
      IN_IGNORED record without a name. Its 16 bytes overwrite the start
      of the array and `prev`'s name still follows them, so the walk as
      written sees the watched file's name and calls back once more if 50
      ms have passed. The walk within the record sees no name. */
  lemma StaleNameAtStop(ignored: Event, prev: Event, stale: seq<byte>, last: int, t: int)
    requires WellFormed(prev) && prev.len > 0 && prev.name != []
    requires ignored.name == [] && ignored.len == 0
    ensures var buffer := EventBytes(ignored) + (EventBytes(prev)[EVENT_SIZE..] + stale);
            WalkAsWritten(buffer, EVENT_SIZE) == [prev.name]
            && RecordNames(buffer[..EVENT_SIZE]) == [[]]
            && (t - last >= DEBOUNCE_MS ==>
                  WatchFile(prev.name, last, [ReadBytes(buffer, EVENT_SIZE, [t])]) == Ok(1))
  {
    var after := EventBytes(prev)[EVENT_SIZE..] + stale;
    var buffer := EventBytes(ignored) + after;
    StaleName(prev, stale);
    assert WalkAsWritten(buffer, EVENT_SIZE) == [prev.name] by {
      RecordAt(ignored, after);
      WalkAt(buffer, 0);
    }
    assert RecordNames(buffer[..EVENT_SIZE]) == [[]] by {
      assert buffer[..EVENT_SIZE] == EventBytes(ignored) + [];
      WalkStep(ignored, []);
    }
    MatchOnce(prev.name, last, buffer, t);
  }

  /** The bytes of a named record after its header, then anything, read as a
      C string: the record's name. */
  lemma StaleName(prev: Event, stale: seq<byte>)
    requires WellFormed(prev) && prev.len > 0
    ensures CName(EventBytes(prev)[EVENT_SIZE..] + stale) == prev.name
  {
    var padding := Zeros(prev.len - |prev.name|);
    ReadsOneRecord(prev, []);
    assert EventBytes(prev)[EVENT_SIZE..] + stale == prev.name + (padding + stale);
    CNameStopsAtNul(prev.name, padding + stale);
  }

  /** A read whose walk sees the watched file once calls back once when 50
      ms have passed. */
  lemma MatchOnce(filename: Name, last: int, buffer: seq<byte>, t: int)
    requires EVENT_SIZE <= |buffer| && WalkAsWritten(buffer, EVENT_SIZE) == [filename]
    ensures t - last >= DEBOUNCE_MS ==>
              WatchFile(filename, last, [ReadBytes(buffer, EVENT_SIZE, [t])]) == Ok(1)
  {
    assert Stamp([filename], [t]) == [Change(filename, t)];
    assert [ReadBytes(buffer, EVENT_SIZE, [t])][1..] == [];
  }

  // ----- name filter and debounce -----

  /** A record seen by the loop, with the clock reading taken for it. */
  datatype Change = Change(name: Name, time: int)

  /** The inner loop's decisions: an event naming the watched file always
      moves `lastEventTime` to its time, and calls back only if at least
      `DEBOUNCE_MS` passed since the previous value. The final
      `lastEventTime` and, per event, whether the callback ran. */
  function Debounce(filename: Name, last: int, changes: seq<Change>): (r: (int, seq<bool>))
    ensures |r.1| == |changes|
    ensures forall k :: 0 <= k < |changes| && r.1[k] ==> changes[k].name == filename
    decreases |changes|
  {
    if changes == [] then (last, [])
    else
      var c := changes[0];
      if c.name == filename then
        var rest := Debounce(filename, c.time, changes[1..]);
        (rest.0, [c.time - last >= DEBOUNCE_MS] + rest.1)
      else
        var rest := Debounce(filename, last, changes[1..]);
        (rest.0, [false] + rest.1)
  }

  /** The time of the latest event naming the file, or `initial` when there
      is none. */
  function LastMatch(filename: Name, initial: int, changes: seq<Change>): int
    decreases |changes|
  {
    if changes == [] then initial
    else if changes[|changes| - 1].name == filename then changes[|changes| - 1].time
    else LastMatch(filename, initial, changes[..|changes| - 1])
  }

  lemma {:induction false} LastMatchPrepend(filename: Name, initial: int, c: Change, s: seq<Change>)
    ensures LastMatch(filename, initial, [c] + s)
            == LastMatch(filename, LastMatch(filename, initial, [c]), s)
    decreases |s|
  {
    if s != [] {
      var cs := [c] + s;
      assert cs[..|cs| - 1] == [c] + s[..|s| - 1];
      LastMatchPrepend(filename, initial, c, s[..|s| - 1]);
    } else {
      assert [c] + s == [c];
    }
  }

  /** The debounce rule per event: event `k` calls back exactly when it
      names the file and comes at least `DEBOUNCE_MS` after the latest
      earlier event naming the file, suppressed or not; and `lastEventTime`
      ends as the time of the latest such event. */
  lemma {:induction false} DebounceRule(filename: Name, last: int, changes: seq<Change>)
    ensures var r := Debounce(filename, last, changes);
            r.0 == LastMatch(filename, last, changes)
            && forall k :: 0 <= k < |changes| ==>
                 (r.1[k] <==> changes[k].name == filename
                              && changes[k].time - LastMatch(filename, last, changes[..k]) >= DEBOUNCE_MS)
    decreases |changes|
  {
    if changes != [] {
      var c, tail := changes[0], changes[1..];
      var next := if c.name == filename then c.time else last;
      DebounceRule(filename, next, tail);
      assert changes == [c] + tail;
      DebounceStep(filename, last, c, tail);
    }
  }

  /** The debounce rule for `[c] + tail`, given it for `tail` from the time
      `c` leaves in `lastEventTime`. */
  lemma DebounceStep(filename: Name, last: int, c: Change, tail: seq<Change>)
    requires var next := if c.name == filename then c.time else last;
             var rest := Debounce(filename, next, tail);
             rest.0 == LastMatch(filename, next, tail)
             && forall k :: 0 <= k < |tail| ==>
                  (rest.1[k] <==> tail[k].name == filename
                                  && tail[k].time - LastMatch(filename, next, tail[..k]) >= DEBOUNCE_MS)
    ensures var changes := [c] + tail;
            var r := Debounce(filename, last, changes);
            r.0 == LastMatch(filename, last, changes)
            && forall k :: 0 <= k < |changes| ==>
                 (r.1[k] <==> changes[k].name == filename
                              && changes[k].time - LastMatch(filename, last, changes[..k]) >= DEBOUNCE_MS)
  {
    var changes := [c] + tail;
    var next := if c.name == filename then c.time else last;
    assert LastMatch(filename, last, [c]) == next by {
      assert [c][..0] == [];
    }
    LastMatchPrepend(filename, last, c, tail);
    DebounceUnfold(filename, last, c, tail);
    var r := Debounce(filename, last, changes);
    var rest := Debounce(filename, next, tail);
    forall k | 0 <= k < |changes|
      ensures r.1[k] <==> changes[k].name == filename
                          && changes[k].time - LastMatch(filename, last, changes[..k]) >= DEBOUNCE_MS
    {
      if k == 0 {
        assert changes[..0] == [];
      } else {
        PrefixMatch(filename, last, c, tail, k);
        assert r.1[k] == rest.1[k - 1] && changes[k] == tail[k - 1];
      }
    }
  }

  /** `Debounce` on `[c] + tail`, one step unfolded. */
  lemma DebounceUnfold(filename: Name, last: int, c: Change, tail: seq<Change>)
    ensures var next := if c.name == filename then c.time else last;
            var rest := Debounce(filename, next, tail);
            Debounce(filename, last, [c] + tail)
              == (rest.0, [c.name == filename && c.time - last >= DEBOUNCE_MS] + rest.1)
  {
    var changes := [c] + tail;
    assert changes[0] == c && changes[1..] == tail;
  }

  /** The latest match in a prefix of `[c] + tail`, one event at a time. */
  lemma PrefixMatch(filename: Name, last: int, c: Change, tail: seq<Change>, k: nat)
    requires 0 < k <= |tail| + 1
    ensures LastMatch(filename, last, ([c] + tail)[..k])
            == LastMatch(filename, LastMatch(filename, last, [c]), tail[..k - 1])
  {
    assert ([c] + tail)[..k] == [c] + tail[..k - 1];
    LastMatchPrepend(filename, last, c, tail[..k - 1]);
  }

  /** The first event naming the file calls back, whenever it comes after
      the thread started at `start`. */
  lemma FirstMatchFires(filename: Name, start: int, changes: seq<Change>, k: nat)
    requires k < |changes| && changes[k].name == filename && changes[k].time >= start
    requires forall j :: 0 <= j < k ==> changes[j].name != filename
    ensures Debounce(filename, start - INITIAL_OFFSET_MS, changes).1[k]
  {
    DebounceRule(filename, start - INITIAL_OFFSET_MS, changes);
    NoMatchKeepsInitial(filename, start - INITIAL_OFFSET_MS, changes[..k]);
  }

  lemma {:induction false} NoMatchKeepsInitial(filename: Name, initial: int, s: seq<Change>)
    requires forall j :: 0 <= j < |s| ==> s[j].name != filename
    ensures LastMatch(filename, initial, s) == initial
    decreases |s|
  {
    if s != [] {
      NoMatchKeepsInitial(filename, initial, s[..|s| - 1]);
    }
  }

  /** An event naming the file within `DEBOUNCE_MS` of the previous one
      does not call back. */
  lemma CloseMatchSuppressed(filename: Name, last: int, changes: seq<Change>, j: nat, k: nat)
    requires j < k < |changes| && changes[j].name == filename && changes[k].name == filename
    requires forall i :: j < i < k ==> changes[i].name != filename
    requires changes[k].time - changes[j].time < DEBOUNCE_MS
    ensures !Debounce(filename, last, changes).1[k]
  {
    DebounceRule(filename, last, changes);
    LatestMatchBefore(filename, last, changes[..k], j);
  }

  lemma {:induction false} LatestMatchBefore(filename: Name, initial: int, s: seq<Change>, j: nat)
    requires j < |s| && s[j].name == filename
    requires forall i :: j < i < |s| ==> s[i].name != filename
    ensures LastMatch(filename, initial, s) == s[j].time
    decreases |s|
  {
    if j < |s| - 1 {
      LatestMatchBefore(filename, initial, s[..|s| - 1], j);
    }
  }

  /** A burst of writes 30 ms apart calls back once: every suppressed event
      still moves `lastEventTime`, so the burst never reaches 50 ms. */
  lemma BurstFiresOnce(filename: Name)
    ensures Debounce(filename, -INITIAL_OFFSET_MS,
                     [Change(filename, 0), Change(filename, 30), Change(filename, 60)]).1
            == [true, false, false]
  {
    var c0, c1, c2 := Change(filename, 0), Change(filename, 30), Change(filename, 60);
    assert [c0, c1, c2][1..] == [c1, c2];
    assert [c1, c2][1..] == [c2];
    assert Debounce(filename, 30, [c2]).1 == [false];
    assert Debounce(filename, 0, [c1, c2]).1 == [false, false];
  }

  // ----- watchFile -----

  /** One `read` of the inotify descriptor: a failure, or the whole array
      after a read that filled its first `length` bytes, with one clock
      reading per record the loop visits. */
  datatype ReadResult = ReadFailed(reason: string) | ReadBytes(buf: seq<byte>, length: nat, clock: seq<int>)

  /** Each read lies within the array and comes with one clock reading per
      record. */
  predicate ClockFits(batches: seq<ReadResult>)
    decreases |batches|
  {
    batches == []
    || ((batches[0].ReadBytes? ==>
           batches[0].length <= |batches[0].buf|
           && |batches[0].clock| == |WalkAsWritten(batches[0].buf, batches[0].length)|)
        && ClockFits(batches[1..]))
  }

  function Stamp(names: seq<Name>, clock: seq<int>): (cs: seq<Change>)
    requires |clock| == |names|
    ensures |cs| == |names| && forall i :: 0 <= i < |cs| ==> cs[i] == Change(names[i], clock[i])
  {
    seq(|names|, i requires 0 <= i < |names| => Change(names[i], clock[i]))
  }

  /** `watchFile` over successive reads while the watcher runs: the number
      of callbacks, or the error a failed read raises. `lastEventTime`
      carries over from one read to the next. */
  function WatchFile(filename: Name, last: int, batches: seq<ReadResult>): (r: Result<nat>)
    requires ClockFits(batches)
    ensures r.Err? ==> exists i :: 0 <= i < |batches| && batches[i].ReadFailed?
                                   && r.error == "Failed to read filebuffer " + batches[i].reason
    decreases |batches|
  {
    if batches == [] then Ok(0)
    else
      match batches[0]
      case ReadFailed(reason) => Err("Failed to read filebuffer " + reason)
      case ReadBytes(buf, length, clock) =>
        var d := Debounce(filename, last, Stamp(WalkAsWritten(buf, length), clock));
        var more :- WatchFile(filename, d.0, batches[1..]);
        Ok(Count(d.1) + more)
  }

  function Count(bs: seq<bool>): (n: nat)
    ensures n <= |bs|
  {
    if bs == [] then 0 else (if bs[0] then 1 else 0) + Count(bs[1..])
  }
}
