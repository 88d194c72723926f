/** Pausing the audio worker: the worker loop and one controlling thread as two programs whose steps interleave. */
module AudioPause {
  import opened Options

  /** Where the worker is in its loop. */
  datatype Worker =
    | Waiting                 // for any client semaphore or the shutdown event
    | Pumping(client: nat)    // a client's semaphore was taken
    | Calling                 // the client's callback runs
    | Woken                   // the shutdown event was taken, `paused` is tested next
    | Signalling              // it was set, the fence is signalled next
    | Parked                  // waits for the resume event

  /** Where the controller is in `Pause` or `Resume`. */
  datatype Controller =
    | Idle
    | Pausing                 // `paused` was tested, it is set next
    | Alarming                // the shutdown event is set next
    | Entering                // the fence is waited for next
    | Fenced                  // waits for the fence
    | Stopping                // the fence was passed, the decoder is paused next
    | Resuming                // `paused` was tested, it is cleared next
    | Waking                  // the resume event is set next
    | Starting                // the decoder is resumed next

  /** The shared state. Both events reset themselves when a wait takes them. The fence is a flag and a count of waiting
      threads. The last four fields count what happened. */
  datatype State = State(worker: Worker, controller: Controller, paused: bool, shutdown: bool, resume: bool,
                         fenceSignalled: bool, fenceWaiting: nat, frames: seq<nat>, decoderPaused: bool,
                         calls: nat, parks: nat, tokens: nat, wakes: nat)

  function Initial(clients: nat): State {
    State(Waiting, Idle, false, false, false, false, 0, seq(clients, _ => 0), false, 0, 0, 0, 0)
  }

  datatype Event =
    | QueueFrame(i: nat)           // a driver releases a client's semaphore
    | TakeClient(i: nat)
    | TakeShutdown
    | WaitFails                    // the wait fails or is interrupted
    | StartCallback(registered: bool)
    | FinishCallback
    | TestPaused
    | SignalFence
    | TakeResume
    | CallPause
    | SetPaused
    | SetShutdown
    | EnterFence
    | LeaveFence
    | PauseDecoder
    | CallResume
    | ClearPaused
    | SetResume
    | ResumeDecoder

  /** The state after an event, if it can happen. */
  function Apply(s: State, e: Event): Option<State> {
    match e
    case QueueFrame(i) => if i < |s.frames| then Some(s.(frames := s.frames[i := s.frames[i] + 1])) else None
    case TakeClient(i) =>
      if s.worker == Waiting && i < |s.frames| && s.frames[i] > 0
      then Some(s.(worker := Pumping(i), frames := s.frames[i := s.frames[i] - 1])) else None
    case TakeShutdown =>
      if s.worker == Waiting && s.shutdown then Some(s.(worker := Woken, shutdown := false)) else None
    case WaitFails => if s.worker == Waiting then Some(s) else None
    case StartCallback(registered) =>
      if s.worker.Pumping?
      then Some(if registered then s.(worker := Calling, calls := s.calls + 1) else s.(worker := Waiting)) else None
    case FinishCallback => if s.worker == Calling then Some(s.(worker := Waiting)) else None
    case TestPaused =>
      if s.worker == Woken then Some(s.(worker := if s.paused then Signalling else Waiting)) else None
    case SignalFence =>
      if s.worker == Signalling then Some(s.(worker := Parked, fenceSignalled := true, parks := s.parks + 1)) else None
    case TakeResume =>
      if s.worker == Parked && s.resume
      then Some(s.(worker := Waiting, resume := false, wakes := s.wakes + 1)) else None
    case CallPause => if s.controller == Idle then Some(if s.paused then s else s.(controller := Pausing)) else None
    case SetPaused => if s.controller == Pausing then Some(s.(controller := Alarming, paused := true)) else None
    case SetShutdown => if s.controller == Alarming then Some(s.(controller := Entering, shutdown := true)) else None
    case EnterFence =>
      if s.controller == Entering then Some(s.(controller := Fenced, fenceWaiting := s.fenceWaiting + 1)) else None
    case LeaveFence =>
      if s.controller == Fenced && s.fenceSignalled && s.fenceWaiting > 0
      then Some(s.(controller := Stopping, fenceSignalled := s.fenceWaiting != 1, fenceWaiting := s.fenceWaiting - 1))
      else None
    case PauseDecoder => if s.controller == Stopping then Some(s.(controller := Idle, decoderPaused := true)) else None
    case CallResume => if s.controller == Idle then Some(if !s.paused then s else s.(controller := Resuming)) else None
    case ClearPaused => if s.controller == Resuming then Some(s.(controller := Waking, paused := false)) else None
    case SetResume =>
      if s.controller == Waking then Some(s.(controller := Starting, resume := true, tokens := s.tokens + 1)) else None
    case ResumeDecoder =>
      if s.controller == Starting then Some(s.(controller := Idle, decoderPaused := false)) else None
  }

  /** The state after a sequence of events, if they can happen in that order. */
  function Run(s: State, events: seq<Event>): Option<State> {
    if events == [] then Some(s)
    else
      var before := Run(s, events[..|events| - 1]);
      if before.None? then None else Apply(before.value, events[|events| - 1])
  }

  /** `Pause` has passed the fence and the resume event of the next `Resume` is not set yet. */
  predicate Quiet(s: State) {
    || s.controller == Stopping || s.controller == Resuming || s.controller == Waking
    || (s.controller == Idle && s.paused)
  }

  /** The worker is on its way from the shutdown event to the resume event. */
  predicate Answering(s: State) {
    s.worker == Woken || s.worker == Signalling
  }

  /** What holds between any two steps. */
  predicate Safe(s: State) {
    && s.fenceWaiting == (if s.controller == Fenced then 1 else 0)
    // While the worker must stay silent it is parked and no token is on its way.
    && (Quiet(s) ==> s.worker == Parked && !s.resume && !s.shutdown && !s.fenceSignalled)
    // A controller before its wait finds no answer yet, and in its wait an alarm, a worker who answers, or the answer.
    && (s.controller == Alarming ==> !s.shutdown && !Answering(s) && !s.fenceSignalled)
    && (s.controller == Entering || s.controller == Fenced ==>
          if s.fenceSignalled then s.worker == Parked && !s.shutdown && !s.resume
          else s.shutdown != Answering(s))
    && (s.controller == Idle || s.controller == Pausing || s.controller == Starting ==>
          !s.fenceSignalled && (!Quiet(s) ==> !s.shutdown && !Answering(s)))
    // Who is parked without a token has a controller who still owes one.
    && (s.worker == Parked && !s.resume ==> Quiet(s) || s.fenceSignalled)
    && (s.resume ==> s.worker == Parked)
    && (s.paused <==> s.controller == Alarming || s.controller == Entering || s.controller == Fenced
                      || s.controller == Stopping || s.controller == Resuming || (s.controller == Idle && Quiet(s)))
    // Every token is taken by one wait and every wait takes one token.
    && s.tokens == s.wakes + (if s.resume then 1 else 0)
    && s.parks == s.wakes + (if s.worker == Parked then 1 else 0)
  }

  /** A step of `Pause`. */
  predicate InPause(e: Event) {
    e.CallPause? || e.SetPaused? || e.SetShutdown? || e.EnterFence? || e.LeaveFence? || e.PauseDecoder?
  }

  /** A step of `Resume`. */
  predicate InResume(e: Event) {
    e.CallResume? || e.ClearPaused? || e.SetResume? || e.ResumeDecoder?
  }

  lemma {:induction false} PauseKeepsSafe(s: State, e: Event)
    requires Safe(s) && Apply(s, e).Some? && InPause(e)
    ensures Safe(Apply(s, e).value)
  {
  }

  lemma {:induction false} ResumeKeepsSafe(s: State, e: Event)
    requires Safe(s) && Apply(s, e).Some? && InResume(e)
    ensures Safe(Apply(s, e).value)
  {
  }

  /** The worker between its waits for a client and the alarm. */
  predicate InLoop(e: Event) {
    e.QueueFrame? || e.TakeClient? || e.TakeShutdown? || e.WaitFails? || e.StartCallback? || e.FinishCallback?
  }

  lemma {:induction false} LoopKeepsSafe(s: State, e: Event)
    requires Safe(s) && Apply(s, e).Some? && InLoop(e)
    ensures Safe(Apply(s, e).value)
  {
  }

  lemma {:induction false} AnswerKeepsSafe(s: State, e: Event)
    requires Safe(s) && Apply(s, e).Some? && (e.TestPaused? || e.SignalFence? || e.TakeResume?)
    ensures Safe(Apply(s, e).value)
  {
  }

  lemma {:induction false} StepKeepsSafe(s: State, e: Event)
    requires Safe(s) && Apply(s, e).Some?
    ensures Safe(Apply(s, e).value)
  {
    if InPause(e) {
      PauseKeepsSafe(s, e);
    } else if InResume(e) {
      ResumeKeepsSafe(s, e);
    } else if InLoop(e) {
      LoopKeepsSafe(s, e);
    } else {
      AnswerKeepsSafe(s, e);
    }
  }

  /** Whatever the order of events, every reachable state is safe. */
  lemma {:induction false} RunsAreSafe(clients: nat, events: seq<Event>)
    requires Run(Initial(clients), events).Some?
    ensures Safe(Run(Initial(clients), events).value)
  {
    if events != [] {
      RunsAreSafe(clients, events[..|events| - 1]);
      StepKeepsSafe(Run(Initial(clients), events[..|events| - 1]).value, events[|events| - 1]);
    }
  }

  /** From the return of `Pause` to the next setting of the resume event no callback starts, whatever else happens, and
      none was running. */
  lemma {:induction false} NoCallbackWhilePaused(s: State, events: seq<Event>)
    requires Safe(s) && Quiet(s) && SetResume !in events && Run(s, events).Some?
    ensures var s' := Run(s, events).value;
            Safe(s') && Quiet(s') && s'.worker == Parked && s'.calls == s.calls
  {
    if events != [] {
      var before := events[..|events| - 1];
      NoCallbackWhilePaused(s, before);
      StepKeepsSafe(Run(s, before).value, events[|events| - 1]);
    }
  }

  /** Setting the resume event always finds a parked worker and an event that is not set, so no token is lost. */
  lemma {:induction false} TokensAreNotLost(clients: nat, events: seq<Event>)
    requires Run(Initial(clients), events).Some?
    requires Apply(Run(Initial(clients), events).value, SetResume).Some?
    ensures var s := Run(Initial(clients), events).value;
            s.worker == Parked && !s.resume && s.tokens == s.wakes && s.parks == s.wakes + 1
  {
    RunsAreSafe(clients, events);
  }

  /** Neither thread waits for ever on the other: a controller at the fence can leave, or the worker can step towards
      signalling it; a parked worker can wake, or a controller will still set the event. */
  lemma {:induction false} NobodyIsStranded(clients: nat, events: seq<Event>)
    requires Run(Initial(clients), events).Some?
    ensures var s := Run(Initial(clients), events).value;
            && (s.controller == Fenced ==> s.fenceSignalled || s.shutdown || Answering(s))
            && (s.worker == Parked ==> s.resume || s.paused || s.controller == Waking)
  {
    RunsAreSafe(clients, events);
  }
}
