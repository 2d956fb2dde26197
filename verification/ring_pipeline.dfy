/** The offline render/encode pipeline of `renderFrames`: one producer (the
    render loop) and one consumer (the encoder thread) sharing a FIFO of
    `EncodeItem`s and the slots' `pendingEncode` flags under one mutex.

    Each locked section is one atomic action; a condition-variable wait is an
    action that is not enabled (`Step` returns `None`) until its predicate
    holds. GPU work (recording, submission, the fence wait), the optional PPM
    dump and the encoder calls themselves are abstract: `EncodeOk`/`FlushOk`
    stand for calls that return, `EncodeFail`/`FlushFail` for calls that
    throw. `encoded` and `flushes` record the encoder calls that returned. */
module RingPipeline {
  import opened Wrappers
  import opened RingSlots
  import FfmpegEncoder

  /** Where the render loop is. */
  datatype Producer =
    | AwaitSlot       // about to call waitForSlotEncode for `currentFrame`
    | Submitting      // slot free: recording, submitting, then enqueueEncode
    | EnqueueBlocked  // inside enqueueEncode, waiting for room in the queue
    | Stopping        // loop finished: about to call stopEncoding
    | Joining         // encodeStop set: joining the encoder thread
    | Done            // renderFrames returned normally
    | Threw           // renderFrames threw "FFmpeg encoder failed"

  /** Where the encoder thread is. */
  datatype Worker =
    | Waiting                   // waiting on the condition variable
    | Encoding(item: EncodeItem) // popped `item`, encoding it outside the lock
    | Flushing                  // left the loop, calling flush
    | Finished                  // thread function returned

  datatype Pipeline = Pipeline(
    ringSize: nat,
    maxFrames: nat,
    slots: seq<RingSlot>,
    queue: seq<EncodeItem>,
    encodeStop: bool,
    encodeFailed: bool,
    currentFrame: nat,
    producer: Producer,
    worker: Worker,
    encoded: seq<nat>,
    flushes: nat)

  datatype Action =
    | WaitSlot    // producer: waitForSlotEncode
    | Enqueue     // producer: enqueueEncode, first locked section or after its wait
    | Stop        // producer: stopEncoding sets encodeStop
    | Join        // producer: join returns once the thread has finished
    | Pop         // worker: the wait returns; pop the front or leave the loop
    | EncodeOk    // worker: encodeFrame returned; clear the slot's flag
    | EncodeFail  // worker: the fence wait, the dump or encodeFrame threw
    | FlushOk     // worker: flush returned
    | FlushFail   // worker: flush threw

  /** The state after `startEncoding` for a validated ring: no stop, no
      failure, an empty queue, the set-up ring slots, the loop at frame 0. */
  function Start(ringSize: nat, maxFrames: nat, slots: seq<RingSlot>): (p: Pipeline)
    requires 0 < ringSize == |slots|
    requires forall i :: 0 <= i < |slots| ==> !slots[i].pendingEncode
    ensures Inv(p)
    ensures p.encoded == [] && p.flushes == 0 && !p.encodeFailed && !p.encodeStop
  {
    var p := Pipeline(ringSize, maxFrames, slots, [], false, false, 0,
                      if maxFrames == 0 then Stopping else AwaitSlot, Waiting, [], 0);
    assert Outstanding(p) == [];
    p
  }

  /** The items the encoder still owes: the one it is encoding, then the
      queue front to back. */
  function Outstanding(p: Pipeline): seq<EncodeItem> {
    (if p.worker.Encoding? then [p.worker.item] else []) + p.queue
  }

  /** Slot and item indices are in range, as `Step` needs them. */
  predicate Shaped(p: Pipeline) {
    0 < p.ringSize == |p.slots|
    && (forall i :: 0 <= i < |p.queue| ==> p.queue[i].slotIndex < p.ringSize)
    && (p.worker.Encoding? ==> p.worker.item.slotIndex < p.ringSize)
  }

  /** `enqueueEncode` once the queue has room: flag the slot, append the
      item, advance the loop. */
  function Push(p: Pipeline): (q: Pipeline)
    requires Shaped(p)
    ensures Shaped(q)
  {
    var s := SlotOf(p.currentFrame, p.ringSize);
    p.(slots := p.slots[s := p.slots[s].(pendingEncode := true)],
       queue := p.queue + [EncodeItem(s, p.currentFrame)],
       currentFrame := p.currentFrame + 1,
       producer := if p.currentFrame + 1 < p.maxFrames then AwaitSlot else Stopping)
  }

  /** Every slot's `pendingEncode` cleared. */
  function ClearPending(slots: seq<RingSlot>): (r: seq<RingSlot>)
    ensures |r| == |slots|
    ensures forall i :: 0 <= i < |r| ==> !r[i].pendingEncode && r[i] == slots[i].(pendingEncode := false)
  {
    seq(|slots|, i requires 0 <= i < |slots| => slots[i].(pendingEncode := false))
  }

  /** The worker's catch block: latch both flags, drop the queue, clear every
      flag; then the thread function returns. */
  function Fail(p: Pipeline): (q: Pipeline)
    requires Shaped(p)
    ensures Shaped(q)
  {
    p.(encodeFailed := true, encodeStop := true, queue := [],
       slots := ClearPending(p.slots), worker := Finished)
  }

  /** One atomic action; `None` when the action is not enabled. */
  function Step(p: Pipeline, a: Action): (r: Option<Pipeline>)
    requires Shaped(p)
    ensures r.Some? ==> Shaped(r.value)
    ensures r.Some? ==> r.value.ringSize == p.ringSize && r.value.maxFrames == p.maxFrames
    // the render loop throws only once it sees the failure flag
    ensures r.Some? && r.value.producer == Threw && p.producer != Threw ==> p.encodeFailed
    // both latches are one-way
    ensures r.Some? ==> (p.encodeFailed ==> r.value.encodeFailed) && (p.encodeStop ==> r.value.encodeStop)
    // an item is appended only while the queue has room
    ensures r.Some? && |p.queue| <= p.ringSize ==> |r.value.queue| <= p.ringSize
    // a flag is cleared only by a returned encode or by the failure handler
    ensures r.Some? ==> forall s :: 0 <= s < |p.slots| ==>
              (p.slots[s].pendingEncode && !r.value.slots[s].pendingEncode ==> a == EncodeOk || r.value.encodeFailed)
  {
    match a
    case WaitSlot =>
      if p.producer != AwaitSlot then None
      else if p.encodeFailed then Some(p.(producer := Threw))
      else if p.slots[SlotOf(p.currentFrame, p.ringSize)].pendingEncode then None
      else Some(p.(producer := Submitting))
    case Enqueue =>
      if p.producer == Submitting then
        if p.encodeFailed then Some(p.(producer := Threw))
        else if |p.queue| < p.ringSize then Some(Push(p))
        else Some(p.(producer := EnqueueBlocked))
      else if p.producer == EnqueueBlocked then
        if |p.queue| >= p.ringSize then None
        else if p.encodeFailed then Some(p.(producer := Threw))
        else Some(Push(p))
      else None
    case Stop =>
      if p.producer != Stopping then None
      else Some(p.(encodeStop := true, producer := Joining))
    case Join =>
      if p.producer != Joining || p.worker != Finished then None
      else Some(p.(producer := Done))
    case Pop =>
      if p.worker != Waiting then None
      else if |p.queue| > 0 then Some(p.(worker := Encoding(p.queue[0]), queue := p.queue[1..]))
      else if p.encodeStop then Some(p.(worker := Flushing))
      else None
    case EncodeOk =>
      if !p.worker.Encoding? then None
      else
        var item := p.worker.item;
        Some(p.(encoded := p.encoded + [item.frameIndex],
                slots := p.slots[item.slotIndex := p.slots[item.slotIndex].(pendingEncode := false)],
                worker := Waiting))
    case EncodeFail =>
      if !p.worker.Encoding? then None else Some(Fail(p))
    case FlushOk =>
      if p.worker != Flushing then None
      else Some(p.(flushes := p.flushes + 1, worker := Finished))
    case FlushFail =>
      if p.worker != Flushing then None else Some(Fail(p))
  }

  // ---------------------------------------------------------------------
  // Invariant

  /** `xs` is `from, from + 1, ...`. */
  predicate Consecutive(xs: seq<nat>, from: nat) {
    forall i :: 0 <= i < |xs| ==> xs[i] == from + i
  }

  function Frames(items: seq<EncodeItem>): (fs: seq<nat>)
    ensures |fs| == |items|
    ensures forall i :: 0 <= i < |items| ==> fs[i] == items[i].frameIndex
  {
    seq(|items|, i requires 0 <= i < |items| => items[i].frameIndex)
  }

  /** Every item names the slot its frame was rendered into. */
  predicate ItemsInSlots(items: seq<EncodeItem>, ringSize: nat)
    requires 0 < ringSize
  {
    forall i :: 0 <= i < |items| ==> items[i].slotIndex == SlotOf(items[i].frameIndex, ringSize)
  }

  /** A slot is flagged exactly when an outstanding item uses it. */
  predicate PendingExactly(slots: seq<RingSlot>, items: seq<EncodeItem>) {
    forall s :: 0 <= s < |slots| ==>
      (slots[s].pendingEncode <==> exists i :: 0 <= i < |items| && items[i].slotIndex == s)
  }

  predicate ProducerAtFrame(p: Pipeline) {
    match p.producer
    case AwaitSlot => p.currentFrame < p.maxFrames
    case Submitting => p.currentFrame < p.maxFrames
    case EnqueueBlocked => false
    case Threw => p.currentFrame < p.maxFrames && p.encodeFailed
    case _ => p.currentFrame == p.maxFrames && p.producer != EnqueueBlocked
  }

  /** After a failure nothing is left to encode. */
  predicate FailedState(p: Pipeline) {
    p.queue == [] && p.worker == Finished && p.encodeStop && p.flushes == 0
    && forall s :: 0 <= s < |p.slots| ==> !p.slots[s].pendingEncode
  }

  /** Without a failure, every frame the loop has enqueued has been encoded
      or is outstanding, in frame order; at most `ringSize` are outstanding,
      fewer while the producer holds a slot it is rendering into. */
  predicate HealthyState(p: Pipeline)
    requires 0 < p.ringSize
  {
    var o := Outstanding(p);
    Consecutive(p.encoded, 0)
    && Consecutive(Frames(o), |p.encoded|)
    && |p.encoded| + |o| == p.currentFrame
    && |o| <= p.ringSize
    && (p.producer == Submitting ==> |o| < p.ringSize)
    && PendingExactly(p.slots, o)
    && (p.encodeStop <==> p.producer == Joining || p.producer == Done)
    && (p.worker == Flushing || p.worker == Finished ==> p.encodeStop && o == [])
    && p.flushes == (if p.worker == Finished then 1 else 0)
    && (p.producer == Done ==> p.worker == Finished)
  }

  predicate Inv(p: Pipeline) {
    Shaped(p)
    && ItemsInSlots(Outstanding(p), p.ringSize)
    && ProducerAtFrame(p)
    && Consecutive(p.encoded, 0)
    && (p.encodeFailed ==> FailedState(p))
    && (!p.encodeFailed ==> HealthyState(p))
  }

  // ---------------------------------------------------------------------
  // Each action keeps the invariant

  /** With `ringSize` items outstanding, the oldest one, `ringSize` frames
      back, holds the slot the loop wants next. */
  lemma FullMeansSlotBusy(p: Pipeline)
    requires Inv(p) && !p.encodeFailed && |Outstanding(p)| == p.ringSize
    ensures p.slots[SlotOf(p.currentFrame, p.ringSize)].pendingEncode
  {
    var o, e := Outstanding(p), |p.encoded|;
    assert Frames(o)[0] == e;
    SlotRepeats(e, p.ringSize);
    assert o[0].slotIndex == SlotOf(p.currentFrame, p.ringSize);
  }

  lemma WaitSlotKeepsInv(p: Pipeline)
    requires Inv(p) && Step(p, WaitSlot).Some?
    ensures Inv(Step(p, WaitSlot).value)
  {
    if !p.encodeFailed {
      var o, c, e := Outstanding(p), p.currentFrame, |p.encoded|;
      if |o| == p.ringSize {
        FullMeansSlotBusy(p);
      }
    }
  }

  /** Flagging slot `s` for a new item with that slot keeps the flags exact. */
  lemma FlagKeepsExact(slots: seq<RingSlot>, o: seq<EncodeItem>, item: EncodeItem)
    requires PendingExactly(slots, o) && item.slotIndex < |slots|
    ensures var s := item.slotIndex;
            PendingExactly(slots[s := slots[s].(pendingEncode := true)], o + [item])
  {
    var s := item.slotIndex;
    var slots', o' := slots[s := slots[s].(pendingEncode := true)], o + [item];
    forall t | 0 <= t < |slots'|
      ensures slots'[t].pendingEncode <==> exists i :: 0 <= i < |o'| && o'[i].slotIndex == t
    {
      if t == s {
        assert o'[|o|].slotIndex == t;
      } else {
        if slots'[t].pendingEncode {
          var i :| 0 <= i < |o| && o[i].slotIndex == t;
          assert o'[i].slotIndex == t;
        }
        if exists i :: 0 <= i < |o'| && o'[i].slotIndex == t {
          var i :| 0 <= i < |o'| && o'[i].slotIndex == t;
          assert i < |o| && o[i].slotIndex == t;
        }
      }
    }
  }

  /** Clearing the slot of the front item keeps the flags exact: no later
      outstanding item shares its slot, since at most `ringSize` consecutive
      frames are outstanding. */
  lemma ClearKeepsExact(slots: seq<RingSlot>, o: seq<EncodeItem>, ringSize: nat, e: nat)
    requires 0 < |o| <= ringSize && o[0].slotIndex < |slots|
    requires PendingExactly(slots, o) && ItemsInSlots(o, ringSize) && Consecutive(Frames(o), e)
    ensures var s := o[0].slotIndex;
            PendingExactly(slots[s := slots[s].(pendingEncode := false)], o[1..])
  {
    var s := o[0].slotIndex;
    var slots', o' := slots[s := slots[s].(pendingEncode := false)], o[1..];
    forall t | 0 <= t < |slots'|
      ensures slots'[t].pendingEncode <==> exists i :: 0 <= i < |o'| && o'[i].slotIndex == t
    {
      if t == s {
        forall i | 0 <= i < |o'| ensures o'[i].slotIndex != t {
          assert o'[i] == o[i + 1] && Frames(o)[i + 1] == e + 1 + i && Frames(o)[0] == e;
          SlotsDistinct(e, e + 1 + i, ringSize);
        }
      } else {
        if slots'[t].pendingEncode {
          var i :| 0 <= i < |o| && o[i].slotIndex == t;
          assert i > 0 && o'[i - 1].slotIndex == t;
        }
        if exists i :: 0 <= i < |o'| && o'[i].slotIndex == t {
          var i :| 0 <= i < |o'| && o'[i].slotIndex == t;
          assert o[i + 1].slotIndex == t;
        }
      }
    }
  }

  lemma PushKeepsHealthy(p: Pipeline)
    requires Inv(p) && !p.encodeFailed && p.producer == Submitting
    ensures Inv(Push(p))
  {
    var q := Push(p);
    var o := Outstanding(p);
    var item := EncodeItem(SlotOf(p.currentFrame, p.ringSize), p.currentFrame);
    assert Outstanding(q) == o + [item];
    FlagKeepsExact(p.slots, o, item);
  }

  lemma EnqueueKeepsInv(p: Pipeline)
    requires Inv(p) && Step(p, Enqueue).Some?
    ensures Inv(Step(p, Enqueue).value)
  {
    if !p.encodeFailed {
      assert |p.queue| <= |Outstanding(p)|;
      PushKeepsHealthy(p);
    }
  }

  lemma StopKeepsInv(p: Pipeline)
    requires Inv(p) && Step(p, Stop).Some?
    ensures Inv(Step(p, Stop).value)
  {
  }

  lemma JoinKeepsInv(p: Pipeline)
    requires Inv(p) && Step(p, Join).Some?
    ensures Inv(Step(p, Join).value)
  {
  }

  lemma PopKeepsInv(p: Pipeline)
    requires Inv(p) && Step(p, Pop).Some?
    ensures Inv(Step(p, Pop).value)
  {
    var q := Step(p, Pop).value;
    if |p.queue| > 0 {
      assert Outstanding(q) == Outstanding(p);
    }
  }

  lemma EncodeOkKeepsInv(p: Pipeline)
    requires Inv(p) && Step(p, EncodeOk).Some?
    ensures Inv(Step(p, EncodeOk).value)
  {
    var q := Step(p, EncodeOk).value;
    var o := Outstanding(p);
    assert o[0] == p.worker.item && Outstanding(q) == o[1..];
    ClearKeepsExact(p.slots, o, p.ringSize, |p.encoded|);
  }

  lemma EncodeFailKeepsInv(p: Pipeline)
    requires Inv(p) && Step(p, EncodeFail).Some?
    ensures Inv(Step(p, EncodeFail).value)
  {
    assert Outstanding(Step(p, EncodeFail).value) == [];
  }

  lemma FlushOkKeepsInv(p: Pipeline)
    requires Inv(p) && Step(p, FlushOk).Some?
    ensures Inv(Step(p, FlushOk).value)
  {
    assert Outstanding(Step(p, FlushOk).value) == [];
  }

  lemma FlushFailKeepsInv(p: Pipeline)
    requires Inv(p) && Step(p, FlushFail).Some?
    ensures Inv(Step(p, FlushFail).value)
  {
    assert Outstanding(Step(p, FlushFail).value) == [];
  }

  /** Every enabled action keeps the invariant. */
  lemma StepKeepsInv(p: Pipeline, a: Action)
    requires Inv(p) && Step(p, a).Some?
    ensures Inv(Step(p, a).value)
  {
    match a
    case WaitSlot => WaitSlotKeepsInv(p);
    case Enqueue => EnqueueKeepsInv(p);
    case Stop => StopKeepsInv(p);
    case Join => JoinKeepsInv(p);
    case Pop => PopKeepsInv(p);
    case EncodeOk => EncodeOkKeepsInv(p);
    case EncodeFail => EncodeFailKeepsInv(p);
    case FlushOk => FlushOkKeepsInv(p);
    case FlushFail => FlushFailKeepsInv(p);
  }

  // ---------------------------------------------------------------------
  // Runs

  /** The state after a schedule of actions, `None` if some action in it is
      not enabled when its turn comes. */
  function Run(p: Pipeline, schedule: seq<Action>): (r: Option<Pipeline>)
    requires Shaped(p)
    ensures r.Some? ==> Shaped(r.value)
    decreases |schedule|
  {
    if schedule == [] then Some(p)
    else
      match Step(p, schedule[0])
      case None => None
      case Some(q) => Run(q, schedule[1..])
  }

  lemma {:induction false} RunKeepsInv(p: Pipeline, schedule: seq<Action>)
    requires Inv(p) && Run(p, schedule).Some?
    ensures Inv(Run(p, schedule).value)
    decreases |schedule|
  {
    if schedule != [] {
      StepKeepsInv(p, schedule[0]);
      RunKeepsInv(Step(p, schedule[0]).value, schedule[1..]);
    }
  }

  /** After a failure nothing is queued, encoded or flushed any more. */
  lemma FailedStepChangesNothing(p: Pipeline, a: Action)
    requires Inv(p) && p.encodeFailed && Step(p, a).Some?
    ensures var q := Step(p, a).value;
            q.encodeFailed && q.queue == [] && q.encoded == p.encoded && q.flushes == p.flushes
  {
  }

  /** Once failed, always failed, and the encoder's output stays as it was. */
  lemma {:induction false} RunFailLatch(p: Pipeline, schedule: seq<Action>)
    requires Inv(p) && p.encodeFailed && Run(p, schedule).Some?
    ensures var q := Run(p, schedule).value;
            q.encodeFailed && q.encoded == p.encoded && q.flushes == p.flushes
    decreases |schedule|
  {
    if schedule != [] {
      FailedStepChangesNothing(p, schedule[0]);
      StepKeepsInv(p, schedule[0]);
      RunFailLatch(Step(p, schedule[0]).value, schedule[1..]);
    }
  }

  /** The states a validated pipeline can reach from `startEncoding`. */
  ghost predicate Reachable(p: Pipeline) {
    exists ringSize: nat, maxFrames: nat, slots: seq<RingSlot>, schedule: seq<Action> ::
      0 < ringSize == |slots| && (forall i :: 0 <= i < |slots| ==> !slots[i].pendingEncode)
      && Run(Start(ringSize, maxFrames, slots), schedule) == Some(p)
  }

  lemma ReachableInv(p: Pipeline)
    requires Reachable(p)
    ensures Inv(p)
  {
    var ringSize: nat, maxFrames: nat, slots: seq<RingSlot>, schedule: seq<Action> :|
      0 < ringSize == |slots| && (forall i :: 0 <= i < |slots| ==> !slots[i].pendingEncode)
      && Run(Start(ringSize, maxFrames, slots), schedule) == Some(p);
    RunKeepsInv(Start(ringSize, maxFrames, slots), schedule);
  }

  // ---------------------------------------------------------------------
  // Properties of every reachable state

  /** The encode queue never holds more than `ringSize` items. */
  lemma QueueBounded(p: Pipeline)
    requires Inv(p)
    ensures |p.queue| <= p.ringSize
  {
    assert |p.queue| <= |Outstanding(p)|;
  }

  /** `encodeFrame` has seen frames 0, 1, ... in order, each once. */
  lemma EncodedInOrder(p: Pipeline)
    requires Inv(p)
    ensures forall i :: 0 <= i < |p.encoded| ==> p.encoded[i] == i
  {
  }

  /** While the loop renders into a slot, no queued or in-flight item uses
      that slot: `waitForSlotEncode` never lets a slot be overwritten before
      its pixels are encoded. */
  lemma RenderSlotFree(p: Pipeline)
    requires Inv(p) && p.producer == Submitting
    ensures forall i :: 0 <= i < |Outstanding(p)| ==>
              Outstanding(p)[i].slotIndex != SlotOf(p.currentFrame, p.ringSize)
  {
    var o := Outstanding(p);
    if !p.encodeFailed {
      forall i | 0 <= i < |o| ensures o[i].slotIndex != SlotOf(p.currentFrame, p.ringSize) {
        assert Frames(o)[i] == |p.encoded| + i;
        SlotsDistinct(o[i].frameIndex, p.currentFrame, p.ringSize);
      }
    }
  }

  /** The wait inside `enqueueEncode` never blocks: the slot wait already
      keeps fewer than `ringSize` items outstanding. */
  lemma EnqueueNeverWaits(p: Pipeline)
    requires Inv(p) && p.producer == Submitting
    ensures Step(p, Enqueue).Some? && Step(p, Enqueue).value.producer != EnqueueBlocked
  {
    assert |p.queue| <= |Outstanding(p)|;
  }

  /** When `renderFrames` returns without a failure, `encodeFrame` has seen
      frames 0 .. maxFrames - 1 in order, each exactly once, and `flush` has
      returned exactly once. */
  lemma CompletedRunEncodesAll(p: Pipeline)
    requires Inv(p) && p.producer == Done && !p.encodeFailed
    ensures p.encoded == Range(p.maxFrames) && p.flushes == 1
  {
    assert Outstanding(p) == [];
  }

  function Range(n: nat): (r: seq<nat>)
    ensures |r| == n && forall i :: 0 <= i < n ==> r[i] == i
  {
    seq(n, i => i)
  }

  /** Both callers have returned or thrown and the encoder thread has ended. */
  predicate Terminal(p: Pipeline) {
    (p.producer == Done || p.producer == Threw) && p.worker == Finished
  }

  /** No deadlock: some action is enabled in every reachable state that is
      not terminal. */
  lemma NoDeadlock(p: Pipeline) returns (a: Action)
    requires Inv(p) && !Terminal(p)
    ensures Step(p, a).Some?
  {
    match p.worker
    case Encoding(_) => a := EncodeOk;
    case Flushing => a := FlushOk;
    case Waiting =>
      if |p.queue| > 0 || p.encodeStop {
        a := Pop;
      } else {
        assert Outstanding(p) == [];
        a := match p.producer
             case AwaitSlot => WaitSlot
             case Submitting => Enqueue
             case _ => Stop;
      }
    case Finished =>
      a := match p.producer
           case AwaitSlot => WaitSlot
           case Submitting => Enqueue
           case Stopping => Stop
           case _ => Join;
  }

  /** A failure of the last encode after the loop has finished is never
      reported: with one slot and one frame, the loop enqueues frame 0 and
      calls `stopEncoding`, the encode throws, and `renderFrames` still
      returns normally. */
  lemma LateFailureUnreported()
    ensures var q := Run(Start(1, 1, [FreshSlot]), [WaitSlot, Enqueue, Stop, Pop, EncodeFail, Join]);
            q.Some? && q.value.producer == Done && q.value.encodeFailed && q.value.encoded == []
  {
    var p0 := Start(1, 1, [FreshSlot]);
    LateFailureLoop();
    var p3 := Run(p0, [WaitSlot, Enqueue, Stop]).value;
    LateFailureWorker(p3);
    RunAppend(p0, [WaitSlot, Enqueue, Stop], [Pop, EncodeFail, Join]);
    assert [WaitSlot, Enqueue, Stop] + [Pop, EncodeFail, Join]
           == [WaitSlot, Enqueue, Stop, Pop, EncodeFail, Join];
  }

  /** The worker part of `LateFailureUnreported`: the encode throws after
      the stop flag is set, and the join still returns. */
  lemma LateFailureWorker(p: Pipeline)
    requires Shaped(p) && |p.queue| == 1 && p.producer == Joining && p.worker == Waiting && p.encoded == []
    ensures var q := Run(p, [Pop, EncodeFail, Join]);
            q.Some? && q.value.producer == Done && q.value.encodeFailed && q.value.encoded == []
  {
  }

  /** The loop part of `LateFailureUnreported`: frame 0 is enqueued and
      `stopEncoding` is reached. */
  lemma LateFailureLoop()
    ensures var q := Run(Start(1, 1, [FreshSlot]), [WaitSlot, Enqueue, Stop]);
            q.Some? && q.value.queue == [EncodeItem(0, 0)] && q.value.producer == Joining
            && q.value.worker == Waiting && q.value.encoded == [] && Shaped(q.value)
  {
  }

  /** Running two schedules one after the other. */
  lemma {:induction false} RunAppend(p: Pipeline, s1: seq<Action>, s2: seq<Action>)
    requires Shaped(p)
    ensures Run(p, s1 + s2) == match Run(p, s1) case None => None case Some(q) => Run(q, s2)
    decreases |s1|
  {
    if s1 != [] {
      assert (s1 + s2)[0] == s1[0] && (s1 + s2)[1..] == s1[1..] + s2;
      if Step(p, s1[0]).Some? {
        RunAppend(Step(p, s1[0]).value, s1[1..], s2);
      }
    } else {
      assert s1 + s2 == s2;
    }
  }

  /** The actions of the render loop. */
  predicate ProducerAction(a: Action) {
    a == WaitSlot || a == Enqueue || a == Stop || a == Join
  }

  /** A failure while frames remain is reported by the render loop's next
      call: in every state satisfying the invariant, once the encoder thread
      has failed and the loop has frames left, the loop has an enabled
      action, and every enabled action of the loop throws "FFmpeg encoder
      failed" without enqueueing. */
  lemma EarlyFailureReported(p: Pipeline) returns (a: Action)
    requires Inv(p) && p.encodeFailed && p.producer != Threw && p.currentFrame < p.maxFrames
    ensures ProducerAction(a) && Step(p, a).Some?
    ensures forall b :: ProducerAction(b) && Step(p, b).Some? ==>
              Step(p, b).value.producer == Threw && Step(p, b).value.currentFrame == p.currentFrame
              && Step(p, b).value.queue == p.queue
  {
    a := if p.producer == AwaitSlot then WaitSlot else Enqueue;
  }

  /** An instance of `EarlyFailureReported`: the encode of frame 0 throws
      and the wait for frame 1 throws. */
  lemma EarlyFailureExample()
    ensures var q := Run(Start(1, 2, [FreshSlot]), [WaitSlot, Enqueue, Pop, EncodeFail, WaitSlot]);
            q.Some? && q.value.producer == Threw && q.value.currentFrame == 1
  {
  }

  // ---------------------------------------------------------------------
  // startEncoding and stopEncoding

  /** `startEncoding`: clear both flags, make the encoder for the image and
      `open` it, then start the encoder thread. When `open` throws, the
      exception leaves `startEncoding` before the thread exists. On success,
      the pipeline starts as `Start` describes, with an opened encoder that
      has made no calls. */
  function StartEncoding(settings: FfmpegEncoder.EncodeSettings, width: int, height: int, srcStride: int,
                         openFail: Option<FfmpegEncoder.SetupFailure>,
                         ringSize: nat, maxFrames: nat, slots: seq<RingSlot>)
    : (r: Result<(Pipeline, FfmpegEncoder.Encoder)>)
    requires 0 < ringSize == |slots|
    requires forall i :: 0 <= i < |slots| ==> !slots[i].pendingEncode
    ensures r.Err? <==> settings.outputPath == [] || openFail.Some?
    ensures settings.outputPath == [] ==> r == Err(FfmpegEncoder.EMPTY_PATH_ERROR)
    ensures settings.outputPath != [] && openFail.Some? ==>
              r == Err(FfmpegEncoder.SetupError(openFail.value, settings.codec))
    ensures r.Ok? ==> Inv(r.value.0) && r.value.0.currentFrame == 0 && r.value.0.encoded == []
                      && r.value.1.isOpen && r.value.1.calls == [] && r.value.1.settings == settings
  {
    var started := FfmpegEncoder.Open(FfmpegEncoder.NewEncoder(settings, width, height, srcStride), openFail);
    if started.failure.Some? then Err(started.failure.value)
    else Ok((Start(ringSize, maxFrames, slots), started.encoder))
  }

  /** What `stopEncoding` touches: the stop flag, whether the thread object
      is joinable, how many joins have returned, the encoder held (if any),
      and the calls made by encoders already destroyed. */
  datatype StopState = StopState(
    encodeStop: bool,
    joinable: bool,
    joins: nat,
    encoder: Option<FfmpegEncoder.Encoder>,
    released: seq<FfmpegEncoder.Call>)

  /** The calls an encoder leaves behind when it is destroyed: its
      destructor runs `close`. */
  function Released(e: FfmpegEncoder.Encoder): (cs: seq<FfmpegEncoder.Call>)
    ensures e.isOpen ==> cs == e.calls + [FfmpegEncoder.WriteTrailer]
    ensures !e.isOpen ==> cs == e.calls
  {
    FfmpegEncoder.Close(e).calls
  }

  /** `stopEncoding`: set the stop flag, join the thread only if it is
      joinable, then `encoder.reset()`, which destroys a held encoder. */
  function StopEncoding(s: StopState): (r: StopState)
    ensures r.encodeStop && !r.joinable && r.encoder.None?
    ensures r.joins == if s.joinable then s.joins + 1 else s.joins
    ensures s.encoder.None? ==> r.released == s.released
    ensures s.encoder.Some? ==> r.released == s.released + Released(s.encoder.value)
  {
    s.(encodeStop := true,
       joinable := false,
       joins := if s.joinable then s.joins + 1 else s.joins,
       encoder := None,
       released := if s.encoder.Some? then s.released + Released(s.encoder.value) else s.released)
  }

  /** The number of trailers in a log of calls. */
  function Trailers(cs: seq<FfmpegEncoder.Call>): nat {
    if cs == [] then 0
    else (if cs[|cs| - 1] == FfmpegEncoder.WriteTrailer then 1 else 0) + Trailers(cs[..|cs| - 1])
  }

  /** A second `stopEncoding` changes nothing: no second join and no second
      trailer. */
  lemma StopEncodingIdempotent(s: StopState)
    ensures StopEncoding(StopEncoding(s)) == StopEncoding(s)
  {
    var r := StopEncoding(s);
    assert !r.joinable && r.encoder.None?;
  }

  /** Stopping a started pipeline whose encoder has made no trailer joins
      the thread once and writes exactly one trailer, however often it is
      called. */
  lemma StopWritesOneTrailer(s: StopState, n: nat)
    requires s.joinable && s.joins == 0 && s.released == []
    requires s.encoder.Some? && s.encoder.value.isOpen && Trailers(s.encoder.value.calls) == 0
    ensures var r := StopRepeated(s, n + 1);
            r.joins == 1 && Trailers(r.released) == 1
  {
    StopRepeatedOnce(s, n);
    var cs := s.encoder.value.calls;
    var r := StopEncoding(s);
    assert r.released == cs + [FfmpegEncoder.WriteTrailer];
    assert (cs + [FfmpegEncoder.WriteTrailer])[..|cs|] == cs;
  }

  /** What `stopEncoding` finds after a run that returned normally from
      `renderFrames`, not after one of its throwing paths: the stop flag not
      yet set by it, the thread joinable, and the encoder `startEncoding`
      opened after the worker's returned calls, one `encodeFrame` per
      encoded frame and the `flush` if it returned. */
  function StopStateAfterRun(p: Pipeline, started: FfmpegEncoder.Encoder): (s: StopState)
    ensures s.joinable && s.joins == 0 && s.released == [] && s.encoder.Some?
  {
    var sent := FfmpegEncoder.EncodeAll(started, p.encoded).encoder;
    var flushed := if p.flushes > 0 then FfmpegEncoder.Flush(sent, None).encoder else sent;
    StopState(false, true, 0, Some(flushed), [])
  }

  /** A run that ended normally, stopped any number of times, joins the
      thread once and leaves exactly the sends of frames 0 .. maxFrames - 1,
      one flush and one trailer, in that order. */
  lemma CompletedRunReleases(p: Pipeline, started: FfmpegEncoder.Encoder, n: nat)
    requires Inv(p) && p.producer == Done && !p.encodeFailed
    requires started.isOpen && started.calls == []
    ensures var r := StopRepeated(StopStateAfterRun(p, started), n + 1);
            r.joins == 1
            && r.released == FfmpegEncoder.FrameCalls(Range(p.maxFrames))
                             + [FfmpegEncoder.SendFlush, FfmpegEncoder.WriteTrailer]
  {
    CompletedRunEncodesAll(p);
    FfmpegEncoder.EncodeAllSends(started, p.encoded);
    var frames := FfmpegEncoder.FrameCalls(p.encoded);
    var sent := started.(calls := frames);
    assert [] + frames == frames;
    var flushed := sent.(calls := frames + [FfmpegEncoder.SendFlush]);
    assert StopStateAfterRun(p, started).encoder == Some(flushed);
    StopRepeatedOnce(StopStateAfterRun(p, started), n);
  }

  /** `stopEncoding` called `n` times in a row. */
  function StopRepeated(s: StopState, n: nat): StopState
    decreases n
  {
    if n == 0 then s else StopRepeated(StopEncoding(s), n - 1)
  }

  /** Repeated stops after the first change nothing. */
  lemma {:induction false} StopRepeatedOnce(s: StopState, n: nat)
    ensures StopRepeated(s, n + 1) == StopEncoding(s)
    decreases n
  {
    if n > 0 {
      StopEncodingIdempotent(s);
      StopRepeatedOnce(StopEncoding(s), n - 1);
    }
  }
}
