/**
 The accelerator's double ring: an input thread, the FPGA and an output thread share
 eight input slots, eight output slots, a FIFO of submitted frames, a credit semaphore
 and a notification semaphore. Every statement that touches shared state is one step.
 */
module FpgaRing {
  import opened Bytes
  import Powers
  import opened Wrappers

  const SLOTS := 8
  const CREDITS := 2
  const POLL_LIMIT := 100

  /** Where the input thread is inside input(); frame is the argument. */
  datatype InputPc<F> = Idle | Granted(frame: F) | Queued(frame: F) | Copied | Started | Notified

  /** Where the output thread is inside its loop; frame is the FIFO entry it holds. */
  datatype OutputPc<F> =
    | Waiting
    | Polling(attempts: nat)
    | Ready
    | Popped(frame: F)
    | Released(frame: F)
    | Calling(frame: F)
    | Aborted        // exit(-1) after POLL_LIMIT reads
    | EmptyFront     // front() of an empty FIFO

  /**
   credits is semInput, notes is sem_input, jobs counts the started inputs the FPGA has
   not published, and computed says that it has written the slot of the next one.
   submitted and calls are the history: frames in order of their credit, and the pairs
   handed to the callback.
   */
  datatype State<F, R> = State(
    credits: nat, notes: nat, fifo: seq<F>,
    start: uint32, inputIndex: uint32, outputIndex: uint32,
    inputRing: seq<Option<F>>, outputRing: seq<Option<R>>,
    register: uint32, jobs: nat, computed: bool,
    inputPc: InputPc<F>, outputPc: OutputPc<F>,
    submitted: seq<F>, calls: seq<(F, Option<R>)>)

  /** (index + start) % 8 in 32-bit unsigned arithmetic. */
  function Slot(index: uint32, start: uint32): (slot: nat)
    ensures slot < SLOTS
  {
    (index + start) % WORD % SLOTS
  }

  function Increment(n: uint32): uint32 {
    (n + 1) % WORD
  }

  /** (uint32)reg_data - vecStartIndex - vecOutputIndex > 0 */
  predicate OutputReady<F, R>(s: State<F, R>) {
    (s.register - s.start - s.outputIndex) % WORD > 0
  }

  function Initial<F, R>(start: uint32): State<F, R> {
    State(CREDITS, 0, [], start, 0, 0, seq(SLOTS, _ => None), seq(SLOTS, _ => None),
          start, 0, false, Idle, Waiting, [], [])
  }

  datatype Step<F> =
    // input thread
    | Acquire(frame: F) | Push | Copy | Start | Notify | Advance
    // FPGA
    | Compute | Publish
    // output thread
    | TakeNote | Poll | Pop | Release | Call | Return

  predicate Enabled<F, R>(s: State<F, R>, step: Step<F>) {
    match step
    case Acquire(_) => s.inputPc.Idle? && s.credits > 0
    case Push => s.inputPc.Granted?
    case Copy => s.inputPc.Queued?
    case Start => s.inputPc.Copied?
    case Notify => s.inputPc.Started?
    case Advance => s.inputPc.Notified?
    case Compute => s.jobs > 0 && !s.computed
    case Publish => s.jobs > 0 && s.computed
    case TakeNote => s.outputPc.Waiting? && s.notes > 0
    case Poll => s.outputPc.Polling?
    case Pop => s.outputPc.Ready?
    case Release => s.outputPc.Popped?
    case Call => s.outputPc.Released?
    case Return => s.outputPc.Calling?
  }

  predicate RingsFit<F, R>(s: State<F, R>) {
    |s.inputRing| == |s.outputRing| == SLOTS
  }

  /** One step. f is what the FPGA computes from one input slot. */
  function Apply<F, R>(f: F -> R, s: State<F, R>, step: Step<F>): (s': State<F, R>)
    requires Enabled(s, step) && RingsFit(s)
    ensures RingsFit(s')
  {
    match step
    case Acquire(frame) => s.(credits := s.credits - 1, submitted := s.submitted + [frame], inputPc := Granted(frame))
    case Push => s.(fifo := s.fifo + [s.inputPc.frame], inputPc := Queued(s.inputPc.frame))
    case Copy =>
      s.(inputRing := s.inputRing[Slot(s.inputIndex, s.start) := Some(s.inputPc.frame)], inputPc := Copied)
    case Start => s.(jobs := s.jobs + 1, inputPc := Started)
    case Notify => s.(notes := s.notes + 1, inputPc := Notified)
    case Advance => s.(inputIndex := Increment(s.inputIndex), inputPc := Idle)
    case Compute =>
      var slot := s.register % SLOTS;
      var result := match s.inputRing[slot] case Some(frame) => Some(f(frame)) case None => None;
      s.(outputRing := s.outputRing[slot := result], computed := true)
    case Publish => s.(register := Increment(s.register), jobs := s.jobs - 1, computed := false)
    case TakeNote => s.(notes := s.notes - 1, outputPc := Polling(0))
    case Poll =>
      var attempts := s.outputPc.attempts + 1;
      if attempts == POLL_LIMIT then s.(outputPc := Aborted)
      else if OutputReady(s) then s.(outputPc := Ready)
      else s.(outputPc := Polling(attempts))
    case Pop =>
      if s.fifo == [] then s.(outputPc := EmptyFront)
      else s.(fifo := s.fifo[1..], outputPc := Popped(s.fifo[0]))
    case Release => s.(credits := s.credits + 1, outputPc := Released(s.outputPc.frame))
    case Call => s.(outputPc := Calling(s.outputPc.frame))
    case Return =>
      s.(calls := s.calls + [(s.outputPc.frame, s.outputRing[Slot(s.outputIndex, s.start)])],
         outputIndex := Increment(s.outputIndex), outputPc := Waiting)
  }

  // ------------------------------------------------------------------------ invariant

  /** Frames whose input() call has returned. */
  function Returned<F, R>(s: State<F, R>): int {
    |s.submitted| - (if s.inputPc.Idle? then 0 else 1)
  }

  /** Inputs started on the FPGA. */
  function StartedCount<F, R>(s: State<F, R>): int {
    Returned(s) + (if s.inputPc.Started? || s.inputPc.Notified? then 1 else 0)
  }

  /** Results the FPGA has published. */
  function Published<F, R>(s: State<F, R>): int {
    StartedCount(s) - s.jobs
  }

  function Pushed<F, R>(s: State<F, R>): int {
    |s.submitted| - (if s.inputPc.Granted? then 1 else 0)
  }

  function PoppedCount<F, R>(s: State<F, R>): int {
    |s.calls| + (if Holding(s) then 1 else 0)
  }

  function ReleasedCount<F, R>(s: State<F, R>): int {
    |s.calls| + (if s.outputPc.Released? || s.outputPc.Calling? then 1 else 0)
  }

  /** Credits are conserved, and so are notifications. */
  predicate Conserved<F, R>(s: State<F, R>) {
    && s.credits + |s.submitted| == CREDITS + ReleasedCount(s)
    && s.notes + |s.calls| + (if s.outputPc.Waiting? then 0 else 1)
       == Returned(s) + (if s.inputPc.Notified? then 1 else 0)
  }

  /** Published results run ahead of the callbacks, never the other way round. */
  predicate Ordered<F, R>(s: State<F, R>) {
    && !s.outputPc.EmptyFront?
    && |s.calls| <= Published(s)
    && (s.outputPc.Ready? || Holding(s) ==> |s.calls| < Published(s))
    && (s.computed ==> s.jobs > 0)
    && (!s.inputPc.Idle? ==> |s.submitted| > 0)
  }

  predicate Counters<F, R>(s: State<F, R>)
    requires Ordered(s)
  {
    && s.inputIndex == Returned(s) % WORD
    && s.outputIndex == |s.calls| % WORD
    && s.register == (s.start + Published(s)) % WORD
  }

  /** The FIFO holds frames lo..hi, oldest first. */
  predicate Window<F(==)>(fifo: seq<F>, frames: seq<F>, lo: int, hi: int) {
    0 <= lo <= hi <= |frames| && fifo == frames[lo..hi]
  }

  /** The output thread holds a frame it popped and has not finished. */
  predicate Holding<F, R>(s: State<F, R>) {
    s.outputPc.Popped? || s.outputPc.Released? || s.outputPc.Calling?
  }

  predicate Fifo<F(==), R>(s: State<F, R>) {
    && Window(s.fifo, s.submitted, PoppedCount(s), Pushed(s))
    && (s.inputPc.Granted? || s.inputPc.Queued? ==> |s.submitted| > 0 && s.inputPc.frame == s.submitted[|s.submitted| - 1])
    && (Holding(s) ==> |s.calls| < |s.submitted| && s.outputPc.frame == s.submitted[|s.calls|])
  }

  /** The slot of the k-th frame, whatever the 32-bit counters have wrapped to. */
  function SlotOf(start: uint32, k: nat): (slot: nat)
    ensures slot < SLOTS
  {
    (start + k) % 8
  }

  /** Inputs copied into their slots. */
  function CopiedCount<F, R>(s: State<F, R>): int {
    Returned(s) + (if s.inputPc.Copied? || s.inputPc.Started? || s.inputPc.Notified? then 1 else 0)
  }

  /** Results written into their slots. */
  function WrittenCount<F, R>(s: State<F, R>): int {
    Published(s) + (if s.computed then 1 else 0)
  }

  /** Every slot of frames lo..hi holds what it should. */
  predicate InputSlots<F(==)>(ring: seq<Option<F>>, start: uint32, frames: seq<F>, lo: int, hi: int)
    requires |ring| == SLOTS
  {
    0 <= lo && hi <= |frames| && (forall k: nat | lo <= k < hi :: ring[SlotOf(start, k)] == Some(frames[k]))
  }

  predicate OutputSlots<F, R(==)>(f: F -> R, ring: seq<Option<R>>, start: uint32, frames: seq<F>, lo: int, hi: int)
    requires |ring| == SLOTS
  {
    0 <= lo && hi <= |frames| && (forall k: nat | lo <= k < hi :: ring[SlotOf(start, k)] == Some(f(frames[k])))
  }

  /** Unconsumed inputs and uncalled results are in their slots. */
  predicate Rings<F(==), R(==)>(f: F -> R, s: State<F, R>)
    requires RingsFit(s)
  {
    && InputSlots(s.inputRing, s.start, s.submitted, Published(s), CopiedCount(s))
    && OutputSlots(f, s.outputRing, s.start, s.submitted, |s.calls|, WrittenCount(s))
  }

  /** The k-th callback got the k-th frame and the FPGA's result for that frame. */
  predicate Delivered<F(==), R(==)>(f: F -> R, s: State<F, R>) {
    && |s.calls| <= |s.submitted|
    && (forall k | 0 <= k < |s.calls| :: s.calls[k] == (s.submitted[k], Some(f(s.submitted[k]))))
  }

  predicate Inv<F(==), R(==)>(f: F -> R, s: State<F, R>) {
    && RingsFit(s) && Conserved(s) && Ordered(s) && Counters(s) && Fifo(s) && Rings(f, s) && Delivered(f, s)
  }

  lemma InitialInv<F, R>(f: F -> R, start: uint32)
    ensures Inv(f, Initial<F, R>(start))
  {
  }

  lemma StepConserves<F, R>(f: F -> R, s: State<F, R>, step: Step<F>)
    requires Inv(f, s) && Enabled(s, step)
    ensures Conserved(Apply(f, s, step))
  {
    hide Rings, Fifo, Delivered, Counters;
  }

  /** The register test is exact although every operand wraps. */
  lemma PollIsExact<F, R>(s: State<F, R>)
    requires Conserved(s) && Ordered(s) && Counters(s)
    ensures OutputReady(s) <==> |s.calls| < Published(s)
  {
    WrappedDifference(s.start, Published(s), |s.calls|);
  }

  lemma WrappedDifference(start: int, p: nat, c: nat)
    requires c <= p <= c + 3
    ensures ((start + p) % WORD - start - c % WORD) % WORD == p - c
  {
    var k := (start + p) / WORD - c / WORD;
    assert (start + p) % WORD - start - c % WORD == p - c - WORD * k;
  }

  lemma StepOrders<F, R>(f: F -> R, s: State<F, R>, step: Step<F>)
    requires Inv(f, s) && Enabled(s, step)
    ensures Ordered(Apply(f, s, step))
  {
    hide Rings, Delivered, OutputReady, Counters;
    PollIsExact(s);
  }

  /** Each counter is moved by one kind of step. */
  lemma CountersMove<F, R>(f: F -> R, s: State<F, R>, step: Step<F>)
    requires RingsFit(s) && Enabled(s, step) && (s.computed ==> s.jobs > 0)
    ensures var s' := Apply(f, s, step);
            && Returned(s') == Returned(s) + One(step.Advance?)
            && CopiedCount(s') == CopiedCount(s) + One(step.Copy?)
            && Published(s') == Published(s) + One(step.Publish?)
            && WrittenCount(s') == WrittenCount(s) + One(step.Compute?)
            && |s'.calls| == |s.calls| + One(step.Return?)
            && s.submitted <= s'.submitted
  {
    hide Slot, OutputReady;
  }

  /** And so are the three registers and the two rings. */
  lemma RegistersMove<F, R>(f: F -> R, s: State<F, R>, step: Step<F>)
    requires RingsFit(s) && Enabled(s, step)
    ensures var s' := Apply(f, s, step);
            && s'.start == s.start
            && s'.inputIndex == (if step.Advance? then Increment(s.inputIndex) else s.inputIndex)
            && s'.outputIndex == (if step.Return? then Increment(s.outputIndex) else s.outputIndex)
            && s'.register == (if step.Publish? then Increment(s.register) else s.register)
            && (!step.Copy? ==> s'.inputRing == s.inputRing)
            && (!step.Compute? ==> s'.outputRing == s.outputRing)
  {
    hide Slot, OutputReady, Increment;
  }

  lemma StepCounts<F, R>(f: F -> R, s: State<F, R>, step: Step<F>)
    requires Inv(f, s) && Enabled(s, step)
    ensures Ordered(Apply(f, s, step)) && Counters(Apply(f, s, step))
  {
    StepOrders(f, s, step);
    hide Rings, Delivered, Fifo, Conserved, Apply, Enabled, Returned, Published;
    assert s.computed ==> s.jobs > 0;
    hide Ordered;
    CountersMove(f, s, step);
    RegistersMove(f, s, step);
    var s' := Apply(f, s, step);
    assert s'.inputIndex == Returned(s') % WORD by { WrapIncrement(Returned(s)); }
    assert s'.outputIndex == |s'.calls| % WORD by { WrapIncrement(|s.calls|); }
    assert s'.register == (s'.start + Published(s')) % WORD by { WrapIncrement(s.start + Published(s)); }
  }

  lemma WrapIncrement(n: int)
    ensures Increment(n % WORD) == (n + 1) % WORD
  {
  }

  lemma StepFifo<F, R>(f: F -> R, s: State<F, R>, step: Step<F>)
    requires Inv(f, s) && Enabled(s, step)
    ensures Fifo(Apply(f, s, step))
  {
    hide Rings, Delivered, OutputReady, Counters, Slot, Window, Conserved, Ordered;
    match step
    case Acquire(frame) => WindowGrows(s.fifo, s.submitted, PoppedCount(s), Pushed(s), frame);
    case Push => WindowPushes(s.fifo, s.submitted, PoppedCount(s), Pushed(s));
    case Pop => PopTakesOldest(f, s);
    case _ =>
  }

  lemma WindowGrows<F>(fifo: seq<F>, frames: seq<F>, lo: int, hi: int, frame: F)
    requires Window(fifo, frames, lo, hi)
    ensures Window(fifo, frames + [frame], lo, hi)
  {
    assert (frames + [frame])[lo..hi] == frames[lo..hi];
  }

  lemma WindowPushes<F>(fifo: seq<F>, frames: seq<F>, lo: int, hi: int)
    requires Window(fifo, frames, lo, hi) && hi < |frames|
    ensures Window(fifo + [frames[hi]], frames, lo, hi + 1)
  {
  }

  lemma WindowPops<F>(fifo: seq<F>, frames: seq<F>, lo: int, hi: int)
    requires Window(fifo, frames, lo, hi) && lo < hi
    ensures fifo != [] && fifo[0] == frames[lo] && Window(fifo[1..], frames, lo + 1, hi)
  {
  }

  /** The FIFO is never empty when it is popped, and its head is the next frame due. */
  lemma PopTakesOldest<F, R>(f: F -> R, s: State<F, R>)
    requires Inv(f, s) && s.outputPc.Ready?
    ensures s.fifo != [] && |s.calls| < |s.submitted| && s.fifo[0] == s.submitted[|s.calls|]
    ensures Fifo(Apply(f, s, Pop))
  {
    hide Rings, Delivered, Counters, Window;
    WindowPops(s.fifo, s.submitted, PoppedCount(s), Pushed(s));
  }

  /** Nearby frames never share a slot. */
  lemma SlotsDistinct(start: uint32, k: nat, k': nat)
    requires k < k' < k + SLOTS
    ensures SlotOf(start, k) != SlotOf(start, k')
  {
  }

  /** The three wrapping index computations all name the slot of the frame they mean. */
  lemma SlotsMatch<F, R>(s: State<F, R>)
    requires Ordered(s) && Counters(s)
    ensures Published(s) >= 0 && Returned(s) >= 0
    ensures Slot(s.inputIndex, s.start) == SlotOf(s.start, Returned(s))
    ensures Slot(s.outputIndex, s.start) == SlotOf(s.start, |s.calls|)
    ensures s.register % SLOTS == SlotOf(s.start, Published(s))
  {
    hide Slot, SlotOf;
    assert Published(s) >= 0 && Returned(s) >= 0;
    WrapKeepsSlot(s.start, Returned(s));
    WrapKeepsSlot(s.start, |s.calls|);
    RegisterKeepsSlot(s.start, Published(s));
  }

  /** Reducing modulo 2^32 first does not change the slot: 8 divides 2^32. */
  lemma RegisterKeepsSlot(start: uint32, k: nat)
    ensures (start + k) % WORD % SLOTS == SlotOf(start, k)
  {
    WordKeepsSlot(start + k);
  }

  lemma WordKeepsSlot(n: nat)
    ensures n % WORD % SLOTS == n % SLOTS
  {
    var low, q := n % WORD, n / WORD;
    assert n == low + SLOTS * (0x2000_0000 * q);
    Powers.DropMultiple(low, SLOTS, 0x2000_0000 * q);
  }

  lemma WrapKeepsSlot(start: uint32, k: nat)
    ensures Slot(k % WORD, start) == SlotOf(start, k)
  {
    var low, q := k % WORD, k / WORD;
    assert start + k == low + start + SLOTS * (0x2000_0000 * q);
    Powers.DropMultiple(low + start, SLOTS, 0x2000_0000 * q);
    WordKeepsSlot(low + start);
  }

  /** At most three frames are between their credit and the end of their callback. */
  lemma AtMostThreeAhead<F, R>(f: F -> R, s: State<F, R>)
    requires Inv(f, s)
    ensures |s.calls| <= Published(s) <= StartedCount(s) <= |s.submitted| <= |s.calls| + 3
  {
  }

  lemma StepRings<F, R>(f: F -> R, s: State<F, R>, step: Step<F>)
    requires Inv(f, s) && Enabled(s, step)
    ensures Rings(f, Apply(f, s, step))
  {
    AtMostThreeAhead(f, s);
    SlotsMatch(s);
    CountersMove(f, s, step);
    RegistersMove(f, s, step);
    hide Delivered, Counters, OutputReady, Conserved, Fifo, Slot, SlotOf, InputSlots, OutputSlots, Returned, Published;
    var s' := Apply(f, s, step);
    if step.Copy? {
      FrameHeld(f, s);
      CopyFillsSlot(s.inputRing, s.start, s.submitted, Published(s), Returned(s));
    } else if step.Compute? {
      ComputeFillsSlot(f, s.inputRing, s.outputRing, s.start, s.submitted, |s.calls|, Published(s), CopiedCount(s));
    }
    hide Apply, Enabled;
    if !step.Copy? {
      InputSlotsNarrow(s.inputRing, s.start, s.submitted, Published(s), CopiedCount(s),
                       s'.submitted, Published(s'), CopiedCount(s'));
    }
    if !step.Compute? {
      OutputSlotsNarrow(f, s.outputRing, s.start, s.submitted, |s.calls|, WrittenCount(s),
                        s'.submitted, |s'.calls|, WrittenCount(s'));
    }
  }

  lemma CopyFillsSlot<F>(ring: seq<Option<F>>, start: uint32, frames: seq<F>, lo: int, k: nat)
    requires |ring| == SLOTS && k < |frames| && k < lo + SLOTS
    requires InputSlots(ring, start, frames, lo, k)
    ensures InputSlots(ring[SlotOf(start, k) := Some(frames[k])], start, frames, lo, k + 1)
  {
    hide SlotOf;
    forall j: nat | lo <= j < k { SlotsDistinct(start, j, k); }
  }

  lemma ComputeFillsSlot<F, R>(f: F -> R, input: seq<Option<F>>, output: seq<Option<R>>, start: uint32, frames: seq<F>,
                               lo: int, k: nat, hi: int)
    requires |input| == |output| == SLOTS && k < hi && k < lo + SLOTS
    requires InputSlots(input, start, frames, k, hi)
    requires OutputSlots(f, output, start, frames, lo, k)
    ensures input[SlotOf(start, k)] == Some(frames[k])
    ensures OutputSlots(f, output[SlotOf(start, k) := Some(f(frames[k]))], start, frames, lo, k + 1)
  {
    hide SlotOf;
    forall j: nat | lo <= j < k { SlotsDistinct(start, j, k); }
  }

  lemma InputSlotsNarrow<F>(ring: seq<Option<F>>, start: uint32, frames: seq<F>, lo: int, hi: int,
                            frames': seq<F>, lo': int, hi': int)
    requires |ring| == SLOTS && InputSlots(ring, start, frames, lo, hi)
    requires frames <= frames' && lo <= lo' && hi' <= hi
    ensures InputSlots(ring, start, frames', lo', hi')
  {
  }

  lemma OutputSlotsNarrow<F, R>(f: F -> R, ring: seq<Option<R>>, start: uint32, frames: seq<F>, lo: int, hi: int,
                                frames': seq<F>, lo': int, hi': int)
    requires |ring| == SLOTS && OutputSlots(f, ring, start, frames, lo, hi)
    requires frames <= frames' && lo <= lo' && hi' <= hi
    ensures OutputSlots(f, ring, start, frames', lo', hi')
  {
  }

  lemma FrameHeld<F, R>(f: F -> R, s: State<F, R>)
    requires Inv(f, s) && (s.inputPc.Granted? || s.inputPc.Queued?)
    ensures 0 <= Returned(s) < |s.submitted| && s.inputPc.frame == s.submitted[Returned(s)]
  {
  }

  lemma StepDelivers<F, R>(f: F -> R, s: State<F, R>, step: Step<F>)
    requires Inv(f, s) && Enabled(s, step)
    ensures Delivered(f, Apply(f, s, step))
  {
    hide Counters, OutputReady, Slot, SlotOf;
    SlotsMatch(s);
  }

  lemma StepInv<F, R>(f: F -> R, s: State<F, R>, step: Step<F>)
    requires Inv(f, s) && Enabled(s, step)
    ensures Inv(f, Apply(f, s, step))
  {
    hide Apply, Rings, Delivered, Counters, Conserved, Ordered, Fifo;
    StepConserves(f, s, step);
    StepCounts(f, s, step);
    StepFifo(f, s, step);
    StepRings(f, s, step);
    StepDelivers(f, s, step);
  }

  // ----------------------------------------------------------------------- every run

  /** Any interleaving: each listed step is taken if its thread can take it. */
  function Run<F, R>(f: F -> R, s: State<F, R>, steps: seq<Step<F>>): (s': State<F, R>)
    requires RingsFit(s)
    ensures RingsFit(s')
    decreases |steps|
  {
    if steps == [] then s
    else Run(f, if Enabled(s, steps[0]) then Apply(f, s, steps[0]) else s, steps[1..])
  }

  lemma {:induction false} RunInv<F, R>(f: F -> R, s: State<F, R>, steps: seq<Step<F>>)
    requires Inv(f, s)
    ensures Inv(f, Run(f, s, steps))
    decreases |steps|
  {
    hide Inv, Apply, Enabled;
    assert RingsFit(s) by { InvFits(f, s); }
    if steps != [] {
      if Enabled(s, steps[0]) {
        StepInv(f, s, steps[0]);
        RunInv(f, Apply(f, s, steps[0]), steps[1..]);
      } else {
        RunInv(f, s, steps[1..]);
      }
    }
  }

  lemma InvFits<F, R>(f: F -> R, s: State<F, R>)
    requires Inv(f, s)
    ensures RingsFit(s)
  {
  }

  /**
   Whatever the interleaving and wherever the counters started: the k-th callback got
   the k-th submitted frame with the FPGA's result for that frame, and no empty FIFO was
   popped.
   */
  lemma EveryCallbackGetsItsResult<F, R>(f: F -> R, start: uint32, steps: seq<Step<F>>)
    ensures var s := Run(f, Initial<F, R>(start), steps);
            && !s.outputPc.EmptyFront?
            && |s.calls| <= |s.submitted|
            && (forall k | 0 <= k < |s.calls| :: s.calls[k] == (s.submitted[k], Some(f(s.submitted[k]))))
  {
    InitialInv<F, R>(f, start);
    RunInv(f, Initial<F, R>(start), steps);
  }

  /**
   The next frame is admitted exactly if no input() call is under way and fewer than two frames are between their
   credit and its release.
   */
  lemma AdmittedIff<F, R>(f: F -> R, start: uint32, steps: seq<Step<F>>, frame: F)
    ensures var s := Run(f, Initial<F, R>(start), steps);
            Enabled(s, Acquire(frame)) <==> s.inputPc.Idle? && |s.submitted| < ReleasedCount(s) + 2
  {
    hide Rings, Delivered, Fifo, Counters;
    InitialInv<F, R>(f, start);
    RunInv(f, Initial<F, R>(start), steps);
  }

  /**
   Credits are conserved; at most three frames are unfinished; the slot a running callback
   reads holds its frame's result; and the slots written next, by the input thread and by
   the FPGA, belong to no frame still waiting in a slot.
   */
  lemma SlotsAreNeverOverwritten<F, R>(f: F -> R, start: uint32, steps: seq<Step<F>>)
    ensures var s := Run(f, Initial<F, R>(start), steps);
            && s.credits + |s.submitted| == CREDITS + ReleasedCount(s)
            && |s.calls| <= Published(s) <= |s.submitted| <= |s.calls| + 3
            && (Holding(s) ==>
                  |s.calls| < |s.submitted| && s.outputRing[Slot(s.outputIndex, s.start)] == Some(f(s.submitted[|s.calls|])))
            && (Enabled(s, Copy) ==>
                  forall k: nat | Published(s) <= k < Returned(s) :: SlotOf(s.start, k) != Slot(s.inputIndex, s.start))
            && (Enabled(s, Compute) ==>
                  forall k: nat | |s.calls| <= k < Published(s) :: SlotOf(s.start, k) != s.register % SLOTS)
  {
    hide Slot, SlotOf, Enabled;
    var s := Run(f, Initial<F, R>(start), steps);
    InitialInv<F, R>(f, start);
    RunInv(f, Initial<F, R>(start), steps);
    AtMostThreeAhead(f, s);
    SlotsMatch(s);
    forall k: nat | Published(s) <= k < Returned(s) { SlotsDistinct(s.start, k, Returned(s)); }
    forall k: nat | |s.calls| <= k < Published(s) { SlotsDistinct(s.start, k, Published(s)); }
  }
}
