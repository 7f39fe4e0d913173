/**
 Progress of the double ring: what the register reads of a run amount to, and how many steps
 are left until every frame has had its callback.
 */
module FpgaProgress {
  import opened Bytes
  import opened FpgaRing
  import opened Wrappers

  // ------------------------------------------------------------------------ register reads

  /** The polls since the last notification was taken, and whether one before the 100th found a result. */
  datatype Tally = Tally(polls: nat, found: bool)

  const NO_POLLS := Tally(0, false)

  function Tick<F, R>(s: State<F, R>, step: Step<F>, t: Tally): Tally {
    match step
    case TakeNote => NO_POLLS
    case Poll => Tally(t.polls + 1, t.found || (t.polls < 99 && |s.calls| < Published(s)))
    case _ => t
  }

  /** The tally at the end of a run, from the steps that are taken. */
  function Count<F, R>(f: F -> R, s: State<F, R>, t: Tally, steps: seq<Step<F>>): Tally
    requires RingsFit(s)
    decreases |steps|
  {
    if steps == [] then t
    else if Enabled(s, steps[0]) then Count(f, Apply(f, s, steps[0]), Tick(s, steps[0], t), steps[1..])
    else Count(f, s, t, steps[1..])
  }

  predicate Tallied<F, R>(s: State<F, R>, t: Tally) {
    match s.outputPc
    case Waiting => t.polls < 100
    case Polling(attempts) => attempts == t.polls < 100 && !t.found
    case Aborted => t.polls == 100 && !t.found
    case _ => t.polls < 100 && t.found
  }

  lemma StepTallies<F, R>(f: F -> R, s: State<F, R>, t: Tally, step: Step<F>)
    requires Inv(f, s) && Tallied(s, t) && Enabled(s, step)
    ensures Tallied(Apply(f, s, step), Tick(s, step, t))
  {
    hide Rings, Delivered, Fifo, OutputReady, Slot, Published;
    PollIsExact(s);
    if step.Pop? {
      PopTakesOldest(f, s);
    }
  }

  lemma {:induction false} RunTallies<F, R>(f: F -> R, s: State<F, R>, t: Tally, steps: seq<Step<F>>)
    requires RingsFit(s) && Inv(f, s) && Tallied(s, t)
    ensures Inv(f, Run(f, s, steps)) && Tallied(Run(f, s, steps), Count(f, s, t, steps))
    decreases |steps|
  {
    hide Inv, Apply, Enabled, Tallied, Tick;
    if steps != [] {
      if Enabled(s, steps[0]) {
        StepInv(f, s, steps[0]);
        StepTallies(f, s, t, steps[0]);
        RunTallies(f, Apply(f, s, steps[0]), Tick(s, steps[0], t), steps[1..]);
      } else {
        RunTallies(f, s, t, steps[1..]);
      }
    }
  }

  /** The state and the tally after a run from the start. */
  function After<F, R>(f: F -> R, start: uint32, steps: seq<Step<F>>): (s: State<F, R>)
    ensures RingsFit(s)
  {
    Run(f, Initial<F, R>(start), steps)
  }

  function TallyOf<F, R>(f: F -> R, start: uint32, steps: seq<Step<F>>): Tally {
    Count(f, Initial<F, R>(start), NO_POLLS, steps)
  }

  lemma Reached<F, R>(f: F -> R, start: uint32, steps: seq<Step<F>>)
    ensures Inv(f, After(f, start, steps)) && Tallied(After(f, start, steps), TallyOf(f, start, steps))
  {
    InitialInv<F, R>(f, start);
    RunTallies(f, Initial<F, R>(start), NO_POLLS, steps);
  }

  lemma TalliedAborts<F, R>(s: State<F, R>, t: Tally)
    requires Tallied(s, t)
    ensures s.outputPc.Aborted? <==> t.polls == 100
    ensures t.polls <= 100 && (t.polls == 100 ==> !t.found) && (t.found ==> !s.outputPc.Polling?)
  {
  }

  /**
   The process exits exactly at the 100th poll since the last notification, none of the 99 before
   it having found an undelivered result.
   */
  lemma AbortedIff<F, R>(f: F -> R, start: uint32, steps: seq<Step<F>>)
    ensures var s, t := After(f, start, steps), TallyOf(f, start, steps);
            && (s.outputPc.Aborted? <==> t.polls == 100)
            && t.polls <= 100
            && (t.polls == 100 ==> !t.found)
            && (t.found ==> !s.outputPc.Polling?)
  {
    hide Inv, After, TallyOf;
    Reached(f, start, steps);
  }

  /** The output thread has found a result and its callback has not returned. */
  predicate Serving<F, R>(s: State<F, R>) {
    s.outputPc.Ready? || Holding(s)
  }

  predicate Served<F, R>(s: State<F, R>, calls: nat) {
    |s.calls| > calls || (|s.calls| == calls && Serving(s))
  }

  lemma StepServes<F, R>(f: F -> R, s: State<F, R>, step: Step<F>, calls: nat)
    requires Inv(f, s) && Served(s, calls) && Enabled(s, step)
    ensures Served(Apply(f, s, step), calls)
  {
    hide Rings, Delivered, Fifo, OutputReady, Slot, Counters, Conserved;
    if step.Pop? {
      PopTakesOldest(f, s);
    }
  }

  lemma {:induction false} RunServes<F, R>(f: F -> R, s: State<F, R>, steps: seq<Step<F>>, calls: nat)
    requires RingsFit(s) && Inv(f, s) && Served(s, calls)
    ensures Inv(f, Run(f, s, steps)) && Served(Run(f, s, steps), calls)
    decreases |steps|
  {
    hide Inv, Apply, Enabled, Served;
    if steps != [] {
      if Enabled(s, steps[0]) {
        StepInv(f, s, steps[0]);
        StepServes(f, s, steps[0], calls);
        RunServes(f, Apply(f, s, steps[0]), steps[1..], calls);
      } else {
        RunServes(f, s, steps[1..], calls);
      }
    }
  }

  /** A poll before the 100th that finds a result ends in the callback, whatever is scheduled after it. */
  lemma FoundIsServed<F, R>(f: F -> R, start: uint32, steps: seq<Step<F>>, more: seq<Step<F>>)
    requires var s := After(f, start, steps);
             Enabled(s, Poll) && |s.calls| < Published(s) && TallyOf(f, start, steps).polls < 99
    ensures var s := After(f, start, steps);
            var s' := Run(f, Apply(f, s, Poll), more);
            |s'.calls| > |s.calls|
            || exists step | step in [Pop, Release, Call, Return] :: Enabled(s', step)
  {
    hide Run, After, TallyOf, Inv, Published;
    var s := After(f, start, steps);
    Reached(f, start, steps);
    ReadyWhenFound(f, s);
    StepInv(f, s, Poll);
    RunServes(f, Apply(f, s, Poll), more, |s.calls|);
    if |Run(f, Apply(f, s, Poll), more).calls| == |s.calls| {
      ServingCanStep(Run(f, Apply(f, s, Poll), more));
    }
  }

  lemma ReadyWhenFound<F, R>(f: F -> R, s: State<F, R>)
    requires Inv(f, s) && |s.calls| < Published(s) && Enabled(s, Poll) && s.outputPc.attempts < 99
    ensures Apply(f, s, Poll) == s.(outputPc := Ready)
  {
    PollIsExact(s);
  }

  lemma ServingCanStep<F, R>(s: State<F, R>)
    requires Serving(s)
    ensures exists step | step in [Pop, Release, Call, Return] :: Enabled(s, step)
  {
    var step: Step<F> := match s.outputPc
      case Ready => Pop
      case Popped(_) => Release
      case Released(_) => Call
      case _ => Return;
    assert Enabled(s, step) && step in [Pop, Release, Call, Return];
  }

  // ------------------------------------------------------------------------- no deadlock

  /** A step other than a new submission or a poll that finds nothing. */
  predicate Progresses<F, R>(f: F -> R, s: State<F, R>, step: Step<F>)
    requires RingsFit(s)
  {
    Enabled(s, step) && !step.Acquire? && (step.Poll? ==> Apply(f, s, step).outputPc.Ready?)
  }

  /**
   Unless 99 polls have found nothing, unfinished frames always leave a step that makes
   progress; and once all frames are finished and the threads rest, both credits are back.
   */
  lemma NoDeadlock<F, R>(f: F -> R, start: uint32, steps: seq<Step<F>>)
    ensures var s, t := After(f, start, steps), TallyOf(f, start, steps);
            && (|s.calls| < |s.submitted| && (t.polls < 99 || t.found) ==> exists step :: Progresses(f, s, step))
            && (|s.calls| == |s.submitted| && s.outputPc.Waiting? ==> s.credits == CREDITS && s.fifo == [])
  {
    var s, t := After(f, start, steps), TallyOf(f, start, steps);
    Reached(f, start, steps);
    hide After, TallyOf, Rings, Delivered;
    var step := match s.inputPc
      case Granted(_) => Push
      case Queued(_) => Copy
      case Copied => Start
      case Started => Notify
      case Notified => Advance
      case Idle =>
        match s.outputPc
        case Waiting => TakeNote
        case Polling(_) => if |s.calls| < Published(s) then Poll else if s.computed then Publish else Compute
        case Ready => Pop
        case Popped(_) => Release
        case Released(_) => Call
        case _ => Return;
    if |s.calls| < |s.submitted| && (t.polls < 99 || t.found) {
      if step.Poll? {
        ReadyWhenFound(f, s);
      }
      hide Counters, OutputReady, Slot, Fifo;
      assert Progresses(f, s, step);
    }
  }

  // -------------------------------------------------------------------- bounded progress

  /** Steps left of the input() call under way. */
  function InputWork<F>(pc: InputPc<F>): int {
    match pc
    case Idle => 0
    case Granted(_) => 5
    case Queued(_) => 4
    case Copied => 3
    case Started => 2
    case Notified => 1
  }

  /** How far the output thread is with a frame, each poll counted. */
  function OutputProgress<F>(pc: OutputPc<F>): int {
    match pc
    case Waiting => 0
    case Polling(attempts) => 1 + attempts
    case Ready => POLL_LIMIT + 1
    case Popped(_) => POLL_LIMIT + 2
    case Released(_) => POLL_LIMIT + 3
    case Calling(_) => POLL_LIMIT + 4
    case Aborted => POLL_LIMIT + 1
    case EmptyFront => POLL_LIMIT + 2
  }

  /** At most so many steps are left for the frames submitted so far. */
  function Work<F, R>(s: State<F, R>): int {
    InputWork(s.inputPc)
    + 2 * (|s.submitted| - Published(s)) - One(s.computed)
    + (POLL_LIMIT + 5) * (|s.submitted| - |s.calls|) - OutputProgress(s.outputPc)
  }

  predicate PollsBounded<F, R>(s: State<F, R>) {
    s.outputPc.Polling? ==> s.outputPc.attempts < POLL_LIMIT
  }

  /** The work of three frames. */
  const MOST_WORK := 5 + 2 * 3 + (POLL_LIMIT + 5) * 3

  lemma WorkIsBounded<F, R>(f: F -> R, s: State<F, R>)
    requires Inv(f, s) && PollsBounded(s)
    ensures 0 <= Work(s) <= MOST_WORK
  {
    hide Rings, Delivered, Counters, Fifo;
    AtMostThreeAhead(f, s);
  }

  lemma InputStepSpends<F, R>(f: F -> R, s: State<F, R>, step: Step<F>)
    requires RingsFit(s) && Enabled(s, step)
    requires step.Push? || step.Copy? || step.Start? || step.Notify? || step.Advance?
    ensures var s' := Apply(f, s, step);
            && InputWork(s'.inputPc) == InputWork(s.inputPc) - 1
            && s'.submitted == s.submitted && s'.computed == s.computed && s'.outputPc == s.outputPc
  {
    hide Slot;
  }

  lemma FpgaStepSpends<F, R>(f: F -> R, s: State<F, R>, step: Step<F>)
    requires RingsFit(s) && Enabled(s, step) && (step.Compute? || step.Publish?)
    ensures var s' := Apply(f, s, step);
            && One(s'.computed) == One(s.computed) + One(step.Compute?) - One(step.Publish?)
            && s'.submitted == s.submitted && s'.inputPc == s.inputPc && s'.outputPc == s.outputPc
  {
  }

  lemma OutputStepSpends<F, R>(f: F -> R, s: State<F, R>, step: Step<F>)
    requires RingsFit(s) && Enabled(s, step) && PollsBounded(s)
    requires step.TakeNote? || step.Poll? || step.Pop? || step.Release? || step.Call? || step.Return?
    ensures var s' := Apply(f, s, step);
            && OutputProgress(s'.outputPc) > OutputProgress(s.outputPc) - (if step.Return? then POLL_LIMIT + 5 else 0)
            && s'.submitted == s.submitted && s'.inputPc == s.inputPc && s'.computed == s.computed
            && PollsBounded(s')
  {
    hide Slot, OutputReady;
  }

  /** Every step but a new submission spends work. */
  lemma StepSpends<F, R>(f: F -> R, s: State<F, R>, step: Step<F>)
    requires Inv(f, s) && PollsBounded(s) && Enabled(s, step) && !step.Acquire?
    ensures PollsBounded(Apply(f, s, step)) && Work(Apply(f, s, step)) < Work(s)
  {
    hide Conserved, Ordered, Counters, Fifo, Rings, Delivered, Apply, Enabled, Published, InputWork, OutputProgress;
    ComputedHasJob(s);
    CountersMove(f, s, step);
    match step
    case Push => InputStepSpends(f, s, step);
    case Copy => InputStepSpends(f, s, step);
    case Start => InputStepSpends(f, s, step);
    case Notify => InputStepSpends(f, s, step);
    case Advance => InputStepSpends(f, s, step);
    case Compute => FpgaStepSpends(f, s, step);
    case Publish => FpgaStepSpends(f, s, step);
    case _ => OutputStepSpends(f, s, step);
  }

  lemma ComputedHasJob<F, R>(s: State<F, R>)
    requires Ordered(s)
    ensures s.computed ==> s.jobs > 0
  {
    hide Published;
  }

  /** The number of listed steps that are taken. */
  function Taken<F, R>(f: F -> R, s: State<F, R>, steps: seq<Step<F>>): nat
    requires RingsFit(s)
    decreases |steps|
  {
    if steps == [] then 0
    else if Enabled(s, steps[0]) then 1 + Taken(f, Apply(f, s, steps[0]), steps[1..])
    else Taken(f, s, steps[1..])
  }

  lemma {:induction false} RunSpends<F, R>(f: F -> R, s: State<F, R>, steps: seq<Step<F>>)
    requires RingsFit(s) && Inv(f, s) && PollsBounded(s) && forall step | step in steps :: !step.Acquire?
    ensures Taken(f, s, steps) <= Work(s) && Inv(f, Run(f, s, steps))
    decreases |steps|
  {
    hide Inv, Apply, Enabled, Work, PollsBounded;
    WorkIsBounded(f, s);
    if steps != [] {
      assert steps[0] in steps;
      if Enabled(s, steps[0]) {
        StepSpends(f, s, steps[0]);
        StepInv(f, s, steps[0]);
        RunSpends(f, Apply(f, s, steps[0]), steps[1..]);
      } else {
        RunSpends(f, s, steps[1..]);
      }
    }
  }

  lemma TalliedBoundsPolls<F, R>(s: State<F, R>, t: Tally)
    requires Tallied(s, t)
    ensures PollsBounded(s)
  {
  }

  /** Nothing but a new submission can happen. */
  predicate AtRest<F, R>(s: State<F, R>) {
    && !Enabled(s, Push) && !Enabled(s, Copy) && !Enabled(s, Start) && !Enabled(s, Notify) && !Enabled(s, Advance)
    && !Enabled(s, Compute) && !Enabled(s, Publish)
    && !Enabled(s, TakeNote) && !Enabled(s, Poll) && !Enabled(s, Pop) && !Enabled(s, Release)
    && !Enabled(s, Call) && !Enabled(s, Return)
  }

  /** When nothing but a new submission can happen, every frame is finished, or the process has exited. */
  lemma RestMeansFinished<F, R>(f: F -> R, s: State<F, R>)
    requires Inv(f, s) && AtRest(s)
    ensures |s.calls| == |s.submitted| <==> !s.outputPc.Aborted?
  {
    hide Rings, Delivered, Counters, Fifo;
  }

  /**
   After any run, however the threads are scheduled from there: at most 326 further steps are taken,
   polls included, and when only a new submission is possible every submitted frame has had its
   callback, unless the last notification has seen 100 polls.
   */
  lemma EveryFrameFinishes<F, R>(f: F -> R, start: uint32, steps: seq<Step<F>>, more: seq<Step<F>>)
    requires forall step | step in more :: !step.Acquire?
    ensures var s, t := After(f, start, steps), TallyOf(f, start, steps);
            var s', t' := Run(f, s, more), Count(f, s, t, more);
            && Taken(f, s, more) <= 326
            && (AtRest(s') ==> (|s'.calls| == |s'.submitted| <==> t'.polls < 100))
  {
    hide Inv, Run, After, TallyOf, Taken, Enabled, Work, AtRest, Count, Tallied, PollsBounded;
    var s, t := After(f, start, steps), TallyOf(f, start, steps);
    Reached(f, start, steps);
    TalliedBoundsPolls(s, t);
    WorkIsBounded(f, s);
    RunSpends(f, s, more);
    RunTallies(f, s, t, more);
    TalliedAborts(Run(f, s, more), Count(f, s, t, more));
    if AtRest(Run(f, s, more)) {
      RestMeansFinished(f, Run(f, s, more));
    }
  }

  // ----------------------------------------------------------------------- one more frame

  lemma RunFirst<F, R>(f: F -> R, s: State<F, R>, step: Step<F>, rest: seq<Step<F>>)
    requires RingsFit(s) && Inv(f, s) && Enabled(s, step)
    ensures Run(f, s, [step] + rest) == Run(f, Apply(f, s, step), rest) && Inv(f, Apply(f, s, step))
  {
    hide Apply, Enabled, Inv;
    assert ([step] + rest)[1..] == rest;
    StepInv(f, s, step);
  }

  /** The threads rest, every frame is finished, and so many notes and inputs are outstanding. */
  predicate Resting<F, R>(s: State<F, R>, outstanding: nat) {
    && s.inputPc.Idle? && s.outputPc.Waiting? && |s.submitted| == |s.calls| + outstanding
    && s.jobs == outstanding && s.notes == outstanding && !s.computed
  }

  function InputSteps<F>(frame: F, rest: seq<Step<F>>): seq<Step<F>> {
    [Acquire(frame)] + ([Push] + ([Copy] + ([Start] + ([Notify] + ([Advance] + rest)))))
  }

  function OutputSteps<F>(rest: seq<Step<F>>): seq<Step<F>> {
    [TakeNote] + ([Poll] + ([Pop] + ([Release] + ([Call] + ([Return] + rest)))))
  }

  /** One frame on its way through the input thread, the FPGA and the output thread. */
  function Passage<F>(frame: F): seq<Step<F>> {
    InputSteps(frame, [Compute] + ([Publish] + OutputSteps([])))
  }

  lemma InputPasses<F, R>(f: F -> R, s: State<F, R>, frame: F, rest: seq<Step<F>>) returns (s': State<F, R>)
    requires Inv(f, s) && Resting(s, 0)
    ensures RingsFit(s) && RingsFit(s') && Run(f, s, InputSteps(frame, rest)) == Run(f, s', rest)
    ensures Inv(f, s') && Resting(s', 1) && s'.submitted == s.submitted + [frame] && s'.calls == s.calls
  {
    hide Inv, Run, Slot;
    CreditsBack(f, s);
    InvFits(f, s);
    var s1 := Apply(f, s, Acquire(frame));
    var s2 := Apply(f, s1, Push);
    var s3 := Apply(f, s2, Copy);
    var s4 := Apply(f, s3, Start);
    var s5 := Apply(f, s4, Notify);
    s' := Apply(f, s5, Advance);
    RunFirst(f, s, Acquire(frame), [Push] + ([Copy] + ([Start] + ([Notify] + ([Advance] + rest)))));
    RunFirst(f, s1, Push, [Copy] + ([Start] + ([Notify] + ([Advance] + rest))));
    RunFirst(f, s2, Copy, [Start] + ([Notify] + ([Advance] + rest)));
    RunFirst(f, s3, Start, [Notify] + ([Advance] + rest));
    RunFirst(f, s4, Notify, [Advance] + rest);
    RunFirst(f, s5, Advance, rest);
  }

  lemma CreditsBack<F, R>(f: F -> R, s: State<F, R>)
    requires Inv(f, s) && s.inputPc.Idle? && s.outputPc.Waiting? && |s.calls| == |s.submitted|
    ensures s.credits == CREDITS > 0 && Resting(s, 0)
  {
    hide Rings, Delivered, Counters, Fifo;
  }

  lemma FpgaPasses<F, R>(f: F -> R, s: State<F, R>, rest: seq<Step<F>>) returns (s': State<F, R>)
    requires Inv(f, s) && Resting(s, 1)
    ensures RingsFit(s) && RingsFit(s') && Run(f, s, [Compute] + ([Publish] + rest)) == Run(f, s', rest)
    ensures Inv(f, s') && s'.inputPc.Idle? && s'.outputPc.Waiting? && s'.jobs == 0 && s'.notes == 1
    ensures s'.submitted == s.submitted && s'.calls == s.calls
  {
    hide Inv, Run;
    InvFits(f, s);
    var s1 := Apply(f, s, Compute);
    s' := Apply(f, s1, Publish);
    RunFirst(f, s, Compute, [Publish] + rest);
    RunFirst(f, s1, Publish, rest);
  }

  lemma PollPasses<F, R>(f: F -> R, s: State<F, R>, rest: seq<Step<F>>) returns (s': State<F, R>)
    requires Inv(f, s) && s.inputPc.Idle? && s.outputPc.Waiting? && s.jobs == 0 && s.notes == 1
    requires |s.submitted| == |s.calls| + 1
    ensures RingsFit(s) && RingsFit(s') && Run(f, s, [TakeNote] + ([Poll] + rest)) == Run(f, s', rest)
    ensures Inv(f, s') && s'.outputPc.Ready? && s'.calls == s.calls && s'.submitted == s.submitted
  {
    hide Inv, Run, Slot, OutputReady;
    InvFits(f, s);
    var s1 := Apply(f, s, TakeNote);
    s' := Apply(f, s1, Poll);
    RunFirst(f, s, TakeNote, [Poll] + rest);
    ReadyWhenFound(f, s1);
    RunFirst(f, s1, Poll, rest);
  }

  lemma CallPasses<F, R>(f: F -> R, s: State<F, R>) returns (s': State<F, R>)
    requires Inv(f, s) && s.outputPc.Ready?
    ensures RingsFit(s) && Run(f, s, [Pop] + ([Release] + ([Call] + ([Return] + [])))) == s'
    ensures Inv(f, s') && |s'.calls| == |s.calls| + 1 && s.calls <= s'.calls && s'.submitted == s.submitted
  {
    hide Inv, Run, Slot, OutputReady;
    InvFits(f, s);
    PopTakesOldest(f, s);
    var s1 := Apply(f, s, Pop);
    var s2 := Apply(f, s1, Release);
    var s3 := Apply(f, s2, Call);
    s' := Apply(f, s3, Return);
    RunFirst(f, s, Pop, [Release] + ([Call] + ([Return] + [])));
    RunFirst(f, s1, Release, [Call] + ([Return] + []));
    RunFirst(f, s2, Call, [Return] + []);
    RunFirst(f, s3, Return, []);
    RunNothing(f, s');
  }

  lemma OutputPasses<F, R>(f: F -> R, s: State<F, R>) returns (s': State<F, R>)
    requires Inv(f, s) && s.inputPc.Idle? && s.outputPc.Waiting? && s.jobs == 0 && s.notes == 1
    requires |s.submitted| == |s.calls| + 1
    ensures RingsFit(s) && Run(f, s, OutputSteps([])) == s'
    ensures Inv(f, s') && |s'.calls| == |s.calls| + 1 && s.calls <= s'.calls && s'.submitted == s.submitted
  {
    hide Inv, Run;
    var s1 := PollPasses(f, s, [Pop] + ([Release] + ([Call] + ([Return] + []))));
    s' := CallPasses(f, s1);
  }

  lemma RunNothing<F, R>(f: F -> R, s: State<F, R>)
    requires RingsFit(s)
    ensures Run(f, s, []) == s
  {
  }

  lemma LastDelivered<F, R>(f: F -> R, s: State<F, R>, calls: seq<(F, Option<R>)>, submitted: seq<F>, frame: F)
    requires Inv(f, s) && calls <= s.calls && |s.calls| == |calls| + 1 == |submitted| + 1
    requires s.submitted == submitted + [frame]
    ensures s.calls == calls + [(frame, Some(f(frame)))]
  {
    hide Rings, Counters, Fifo, Conserved, Ordered;
    var last := s.calls[|calls|];
    assert s.calls == s.calls[..|calls|] + [last];
  }

  /** Whenever the threads rest and all frames are finished, the next frame can go through at once. */
  lemma NextFrameGoesThrough<F, R>(f: F -> R, start: uint32, steps: seq<Step<F>>, frame: F)
    requires var s := After(f, start, steps); s.inputPc.Idle? && s.outputPc.Waiting? && |s.calls| == |s.submitted|
    ensures var s := After(f, start, steps);
            Run(f, s, Passage(frame)).calls == s.calls + [(frame, Some(f(frame)))]
  {
    hide Inv, Run, After;
    var s := After(f, start, steps);
    Reached(f, start, steps);
    CreditsBack(f, s);
    var s1 := InputPasses(f, s, frame, [Compute] + ([Publish] + OutputSteps([])));
    var s2 := FpgaPasses(f, s1, OutputSteps([]));
    var s3 := OutputPasses(f, s2);
    LastDelivered(f, s3, s.calls, s.submitted, frame);
  }
}
