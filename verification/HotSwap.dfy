/** Hot swap of a ublk device's image: the handshake between `swap_image`, called from
control coroutines, and the queue thread that alone dispatches I/O.

The queue thread's load, install, clear and signal are separate events here, so the
control side can run between any two of them. Events of the queue's own vCPU (taking,
starting and finishing I/O) cannot: there is no yield inside that block.
 */
module HotSwap {
  import opened Runs

  /** Where a call of `swap_image` stands. `Retracting` is about to take its request
      back; `Won` returned 0 and `Lost` returned -1. */
  datatype Phase = Posting | Waiting | Retracting | WaitingMore | Committing | Won | Lost

  /** A call with its request; `signals` is the semaphore `done`. */
  datatype Call = Call(newTarget: nat, phase: Phase, oldTarget: nat, applied: bool, signals: nat)

  datatype Io = Accepted | Running(target: nat) | Finished(target: nat)

  datatype QueuePc = Polling | Loaded(c: nat) | Installed(c: nat) | Cleared(c: nat)

  datatype State = State(
    dispatch: nat,            // ctx.target
    target: nat,              // target_, and with it file_
    io: map<nat, Io>,
    inflight: int,
    pending: Option<nat>,     // swap_pending_
    queue: QueuePc,
    exited: bool,
    calls: map<nat, Call>)

  datatype Event =
    | Accept(i: nat)                // obd_handle_io_async
    | Begin(i: nat)                 // io_worker reads ctx->target
    | Finish(i: nat)                // inflight--
    | Exit                          // the queue loop ends
    | Load | Install | Clear | Signal
    | Enter(c: nat, t: nat)         // swap_image with a new target
    | Post(c: nat)                  // compare_exchange(nullptr -> req)
    | Wake(c: nat)                  // done.wait succeeds
    | Timeout(c: nat)               // done.wait times out
    | Retract(c: nat)               // compare_exchange(req -> nullptr)
    | WakeMore(c: nat)              // the second wait succeeds
    | TimeoutMore(c: nat)           // the second wait times out
    | Commit(c: nat)                // file_ and target_ are set, return 0

  function Init(): State {
    State(0, 0, map[], 0, None, Polling, false, map[])
  }

  predicate In(s: State, c: nat, p: Phase) {
    c in s.calls && s.calls[c].phase == p
  }

  function To(s: State, c: nat, p: Phase): State
    requires c in s.calls
  {
    s.(calls := s.calls[c := s.calls[c].(phase := p)])
  }

  /** A target object that no call and nobody else has had. */
  predicate FreshTarget(s: State, t: nat) {
    t != 0 && forall c | c in s.calls :: s.calls[c].newTarget != t
  }

  function Step(s: State, e: Event): Option<State> {
    match e
    case Accept(i) =>
      if !s.queue.Polling? || s.exited || i in s.io then None
      else Some(s.(io := s.io[i := Accepted], inflight := s.inflight + 1))
    case Begin(i) =>
      if !s.queue.Polling? || i !in s.io || !s.io[i].Accepted? then None
      else Some(s.(io := s.io[i := Running(s.dispatch)]))
    case Finish(i) =>
      if !s.queue.Polling? || i !in s.io || !s.io[i].Running? then None
      else Some(s.(io := s.io[i := Finished(s.io[i].target)], inflight := s.inflight - 1))
    case Exit =>
      if !s.queue.Polling? || s.exited then None else Some(s.(exited := true))
    case Load =>
      if !s.queue.Polling? || s.exited || s.pending.None? || s.inflight != 0 then None
      else Some(s.(queue := Loaded(s.pending.value)))
    case Install =>
      if !s.queue.Loaded? || s.queue.c !in s.calls then None
      else
        var r := s.calls[s.queue.c];
        Some(s.(dispatch := r.newTarget, queue := Installed(s.queue.c),
                calls := s.calls[s.queue.c := r.(oldTarget := s.dispatch, applied := true)]))
    case Clear =>
      if !s.queue.Installed? then None
      else Some(s.(pending := None, queue := Cleared(s.queue.c)))
    case Signal =>
      if !s.queue.Cleared? || s.queue.c !in s.calls then None
      else
        var r := s.calls[s.queue.c];
        Some(s.(queue := Polling, calls := s.calls[s.queue.c := r.(signals := r.signals + 1)]))
    case Enter(c, t) =>
      if c in s.calls || !FreshTarget(s, t) then None
      else Some(s.(calls := s.calls[c := Call(t, if s.exited then Lost else Posting, 0, false, 0)]))
    case Post(c) =>
      if !In(s, c, Posting) then None
      else if s.pending.None? then Some(To(s, c, Waiting).(pending := Some(c)))
      else Some(To(s, c, Lost))
    case Wake(c) =>
      if !In(s, c, Waiting) || s.calls[c].signals == 0 then None
      else
        var r := s.calls[c];
        Some(s.(calls := s.calls[c := r.(signals := r.signals - 1,
                                         phase := if r.applied then Committing else Retracting)]))
    case Timeout(c) =>
      if !In(s, c, Waiting) then None else Some(To(s, c, Retracting))
    case Retract(c) =>
      if !In(s, c, Retracting) then None
      else if s.pending == Some(c) then Some(To(s, c, Lost).(pending := None))
      else Some(To(s, c, WaitingMore))
    case WakeMore(c) =>
      if !In(s, c, WaitingMore) || s.calls[c].signals == 0 then None
      else
        var r := s.calls[c];
        Some(s.(calls := s.calls[c := r.(signals := r.signals - 1,
                                         phase := if r.applied then Committing else Lost)]))
    case TimeoutMore(c) =>
      if !In(s, c, WaitingMore) || s.calls[c].signals > 0 then None else Some(To(s, c, Lost))
    case Commit(c) =>
      if !In(s, c, Committing) then None
      else Some(To(s, c, Won).(target := s.calls[c].newTarget))
  }

  predicate Valid(run: seq<Event>) {
    IsRun(Step, Init(), run)
  }

  function After(run: seq<Event>): State
    requires Valid(run)
  {
    Exec(Step, Init(), run).value
  }

  // ----- in-flight I/O and the dispatch target

  function Unfinished(io: map<nat, Io>): set<nat> {
    set i | i in io && !io[i].Finished?
  }

  /** `inflight` counts the unfinished I/O, none is there while the queue thread is
      swapping, and every running I/O uses the current dispatch target. */
  predicate IoInv(s: State) {
    && s.inflight == |Unfinished(s.io)|
    && (!s.queue.Polling? ==> s.inflight == 0)
    && (forall i | i in s.io && s.io[i].Running? :: s.io[i].target == s.dispatch)
  }

  lemma StepKeepsIo(s: State, e: Event)
    requires IoInv(s) && Step(s, e).Some?
    ensures IoInv(Step(s, e).value)
  {
    StepKeepsInflight(s, e);
    StepKeepsRunning(s, e);
    hide Step;
  }

  lemma StepKeepsInflight(s: State, e: Event)
    requires IoInv(s) && Step(s, e).Some?
    ensures var t := Step(s, e).value; t.inflight == |Unfinished(t.io)| && (!t.queue.Polling? ==> t.inflight == 0)
  {
    hide Unfinished;
    match e
    case Accept(i) => IoMoves(s.io, i, Accepted);
    case Begin(i) => IoMoves(s.io, i, Running(s.dispatch));
    case Finish(i) => IoMoves(s.io, i, Finished(s.io[i].target));
    case _ =>
  }

  lemma IoMoves(io: map<nat, Io>, i: nat, v: Io)
    ensures |Unfinished(io[i := v])| == |Unfinished(io)| + (if v.Finished? then 0 else 1)
                                        - (if i in io && !io[i].Finished? then 1 else 0)
  {
    var before, after := Unfinished(io), Unfinished(io[i := v]);
    assert after - {i} == before - {i};
    assert |after| == |after - {i}| + (if i in after then 1 else 0);
    assert |before| == |before - {i}| + (if i in before then 1 else 0);
  }

  lemma StepKeepsRunning(s: State, e: Event)
    requires IoInv(s) && Step(s, e).Some?
    ensures var t := Step(s, e).value; forall i | i in t.io && t.io[i].Running? :: t.io[i].target == t.dispatch
  {
    if e.Install? {
      NoneUnfinished(s);
    }
    hide Unfinished;
  }

  lemma NoneUnfinished(s: State)
    requires s.inflight == |Unfinished(s.io)| == 0
    ensures forall i | i in s.io :: s.io[i].Finished?
  {
    forall i | i in s.io ensures s.io[i].Finished? {
      assert i !in Unfinished(s.io);
    }
  }

  lemma {:induction false} RunKeepsIo(run: seq<Event>)
    requires Valid(run)
    ensures IoInv(After(run))
  {
    if run != [] {
      hide Step, IoInv;
      var p := run[..|run| - 1];
      RunKeepsIo(p);
      StepKeepsIo(After(p), run[|run| - 1]);
    }
  }

  lemma StepKeepsDispatch(s: State, e: Event, i: nat)
    requires IoInv(s) && Step(s, e).Some? && i in s.io
    ensures var t := Step(s, e).value;
            && i in t.io
            && (s.io[i].Finished? ==> t.io[i] == s.io[i])
            && (!s.io[i].Finished? ==> t.dispatch == s.dispatch)
            && (!t.io[i].Accepted? && !s.io[i].Finished? ==> t.io[i].target == s.dispatch)
  {
    if e == Install {
      NoneUnfinished(s);
    }
  }

  /** Each I/O uses one target from dispatch to completion: from its acceptance at `p`
      until it is finished the dispatch target does not change, and the target the I/O
      used is that one. */
  lemma {:induction false} OneTargetPerIo(run: seq<Event>, p: nat)
    requires Valid(run) && p < |run| && run[p].Accept?
    ensures Valid(run[..p + 1])
    ensures var s, t, i := After(run[..p + 1]), After(run), run[p].i;
            && i in t.io
            && (!t.io[i].Finished? ==> t.dispatch == s.dispatch)
            && (!t.io[i].Accepted? ==> t.io[i].target == s.dispatch)
  {
    if p == |run| - 1 {
      assert run[..p + 1] == run;
    } else {
      var q := run[..|run| - 1];
      assert q[..p + 1] == run[..p + 1];
      OneTargetPerIo(q, p);
      RunKeepsIo(q);
      StepKeepsDispatch(After(q), run[|run| - 1], run[p].i);
    }
  }

  // ----- what a call's result says

  /** The control side interferes with the queue thread's block: it takes its request
      back after the queue thread has loaded it, or gives up between the clear and the
      signal. */
  predicate Interferes(s: State, e: Event) {
    match e
    case Retract(c) => In(s, c, Retracting) && s.pending == Some(c) &&
                       (s.queue == Loaded(c) || s.queue == Installed(c))
    case TimeoutMore(c) => s.queue == Cleared(c)
    case _ => false
  }

  predicate Disturbed(run: seq<Event>)
    requires Valid(run)
  {
    if run == [] then false
    else Disturbed(run[..|run| - 1]) || Interferes(After(run[..|run| - 1]), run[|run| - 1])
  }

  /** The call failed, and yet its target was installed or is about to be. */
  predicate Betrayed(s: State, c: nat) {
    In(s, c, Lost) && (s.calls[c].applied || s.queue == Loaded(c))
  }

  predicate Pausing(p: Phase) {
    p.Waiting? || p.Retracting? || p.WaitingMore?
  }

  /** What holds of a call as long as nobody interfered. */
  predicate CallInv(s: State, c: nat)
    requires c in s.calls
  {
    var r := s.calls[c];
    && (r.applied ==> s.queue != Loaded(c))
    && (s.queue == Installed(c) || s.queue == Cleared(c) ==> r.applied && r.signals == 0)
    && (s.queue == Loaded(c) || s.queue == Installed(c) ==>
          s.pending == Some(c) && (r.phase.Waiting? || r.phase.Retracting?))
    && (s.queue == Cleared(c) ==> Pausing(r.phase))
    && (s.pending == Some(c) ==> r.phase.Waiting? || r.phase.Retracting?)
    && (s.pending == Some(c) && r.applied ==> s.queue == Installed(c))
    && (r.applied && s.queue != Installed(c) && s.queue != Cleared(c) && Pausing(r.phase) ==> r.signals == 1)
    && (!r.applied ==> r.signals == 0)
    && ((r.phase.Waiting? || r.phase.Retracting?) && !r.applied ==> s.pending == Some(c))
    && (r.phase.WaitingMore? ==> r.applied)
    && (r.phase.Committing? || r.phase.Won? ==> r.applied)
    && (r.phase.Posting? ==> !r.applied)
    && (r.phase.Lost? ==> !r.applied)
  }

  predicate CallsInv(s: State) {
    && (s.queue.Polling? || s.queue.c in s.calls)
    && (s.pending.Some? ==> s.pending.value in s.calls)
    && (s.queue.Cleared? ==> s.pending != Some(s.queue.c))
    && forall c | c in s.calls :: CallInv(s, c)
  }

  predicate OfQueue(e: Event) {
    e.Load? || e.Install? || e.Clear? || e.Signal?
  }

  lemma QueueKeepsCall(s: State, e: Event, c: nat)
    requires CallsInv(s) && Step(s, e).Some? && OfQueue(e)
    requires c in s.calls
    ensures CallInv(Step(s, e).value, c)
  {
    assert CallInv(s, c);
    if !s.queue.Polling? {
      assert CallInv(s, s.queue.c);
    }
  }

  lemma CallerKeepsOthers(s: State, e: Event, c: nat)
    requires CallsInv(s) && Step(s, e).Some? && !OfQueue(e) && !Interferes(s, e)
    requires c in s.calls && (OfCaller(e) ==> e.c != c)
    ensures CallInv(Step(s, e).value, c)
  {
    hide CallsInv;
    assert CallInv(s, c) by { CallsTell(s, c); }
    assert Step(s, e).value.calls[c] == s.calls[c];
  }

  lemma CallsTell(s: State, c: nat)
    requires CallsInv(s) && c in s.calls
    ensures CallInv(s, c)
  {
  }

  predicate OfCaller(e: Event) {
    e.Enter? || e.Post? || e.Wake? || e.Timeout? || e.Retract? || e.WakeMore? || e.TimeoutMore? || e.Commit?
  }

  lemma CallerKeepsOwn(s: State, e: Event)
    requires CallsInv(s) && Step(s, e).Some? && OfCaller(e) && !Interferes(s, e)
    ensures CallInv(Step(s, e).value, e.c)
  {
    if e.c in s.calls {
      CallsTell(s, e.c);
    }
    assert s.pending.Some? ==> s.pending.value in s.calls;
    assert s.queue.Polling? || s.queue.c in s.calls;
    hide CallsInv;
    if e.Enter? || e.Post? {
      BeginsWell(s, e);
    } else if e.Wake? || e.Timeout? || e.Commit? {
      hide Interferes;
      WaitsWell(s, e);
    } else {
      RetractsWell(s, e);
    }
    hide Step, CallInv, Interferes;
  }

  lemma BeginsWell(s: State, e: Event)
    requires Step(s, e).Some? && (e.Enter? || e.Post?)
    requires e.c in s.calls ==> CallInv(s, e.c)
    requires s.queue.Polling? || s.queue.c in s.calls
    requires s.pending.Some? ==> s.pending.value in s.calls
    ensures e.c in Step(s, e).value.calls && CallInv(Step(s, e).value, e.c)
  {
  }

  lemma WaitsWell(s: State, e: Event)
    requires Step(s, e).Some? && (e.Wake? || e.Timeout? || e.Commit?)
    requires e.c in s.calls ==> CallInv(s, e.c)
    ensures e.c in Step(s, e).value.calls && CallInv(Step(s, e).value, e.c)
  {
  }

  lemma RetractsWell(s: State, e: Event)
    requires Step(s, e).Some? && (e.Retract? || e.WakeMore? || e.TimeoutMore?) && !Interferes(s, e)
    requires e.c in s.calls ==> CallInv(s, e.c)
    ensures e.c in Step(s, e).value.calls && CallInv(Step(s, e).value, e.c)
  {
  }

  lemma StepKeepsCalls(s: State, e: Event)
    requires CallsInv(s) && Step(s, e).Some? && !Interferes(s, e)
    ensures CallsInv(Step(s, e).value)
  {
    var t := Step(s, e).value;
    forall c | c in t.calls ensures CallInv(t, c) {
      if OfQueue(e) {
        QueueKeepsCall(s, e, c);
      } else {
        if OfCaller(e) && e.c == c {
          CallerKeepsOwn(s, e);
        } else {
          CallerKeepsOthers(s, e, c);
        }
      }
    }
    if e == Clear {
      assert CallInv(s, s.queue.c);
    }
  }

  lemma {:induction false} UndisturbedKeepsCalls(run: seq<Event>)
    requires Valid(run) && !Disturbed(run)
    ensures CallsInv(After(run))
  {
    if run != [] {
      hide Step, Interferes, CallsInv;
      var p := run[..|run| - 1];
      UndisturbedKeepsCalls(p);
      StepKeepsCalls(After(p), run[|run| - 1]);
    }
  }

  /** Main theorem on results. In every run without interference a call that returned 0
      was applied, and one that returned -1 neither was nor will be; the second wait of a
      call can time out only while the queue thread is between clear and signal. */
  lemma ResultsAreHonest(run: seq<Event>, c: nat)
    requires Valid(run) && !Disturbed(run) && c in After(run).calls
    ensures In(After(run), c, Won) ==> After(run).calls[c].applied
    ensures In(After(run), c, Lost) ==> !After(run).calls[c].applied && After(run).queue != Loaded(c)
    ensures Step(After(run), TimeoutMore(c)).Some? ==> After(run).queue == Cleared(c)
  {
    hide Step, Disturbed;
    UndisturbedKeepsCalls(run);
    CallsTell(After(run), c);
    TimesOutWhenCleared(After(run), c);
    hide CallsInv;
  }

  lemma TimesOutWhenCleared(s: State, c: nat)
    requires c in s.calls && CallInv(s, c)
    ensures Step(s, TimeoutMore(c)).Some? ==> s.queue == Cleared(c)
  {
  }

  /** What the queue thread's position says, interference or not. */
  predicate QueueInv(s: State) {
    PositionInv(s) && PendingInv(s) && PostingInv(s)
  }

  predicate PositionInv(s: State) {
    && (!s.queue.Polling? ==> s.queue.c in s.calls)
    && (s.queue.Loaded? ==> !s.calls[s.queue.c].applied)
    && (s.queue.Installed? || s.queue.Cleared? ==> s.calls[s.queue.c].applied)
  }

  predicate PendingInv(s: State) {
    && (s.pending.Some? ==> s.pending.value in s.calls && !s.calls[s.pending.value].phase.Posting?)
    && (s.pending.Some? && s.calls[s.pending.value].applied ==> s.queue == Installed(s.pending.value))
  }

  predicate PostingInv(s: State) {
    forall c | c in s.calls && s.calls[c].phase.Posting? :: !s.calls[c].applied && s.queue != Loaded(c)
  }

  lemma StepKeepsQueue(s: State, e: Event)
    requires QueueInv(s) && Step(s, e).Some?
    ensures QueueInv(Step(s, e).value)
  {
    StepKeepsPosition(s, e);
    StepKeepsPending(s, e);
    StepKeepsPosting(s, e);
    hide Step, PositionInv, PendingInv, PostingInv;
  }

  lemma StepKeepsPosition(s: State, e: Event)
    requires PositionInv(s) && PendingInv(s) && Step(s, e).Some?
    ensures PositionInv(Step(s, e).value)
  {
  }

  lemma StepKeepsPending(s: State, e: Event)
    requires QueueInv(s) && Step(s, e).Some?
    ensures PendingInv(Step(s, e).value)
  {
  }

  lemma StepKeepsPosting(s: State, e: Event)
    requires QueueInv(s) && Step(s, e).Some?
    ensures PostingInv(Step(s, e).value)
  {
  }

  lemma {:induction false} RunKeepsQueue(run: seq<Event>)
    requires Valid(run)
    ensures QueueInv(After(run))
  {
    if run != [] {
      hide Step, QueueInv;
      var p := run[..|run| - 1];
      RunKeepsQueue(p);
      StepKeepsQueue(After(p), run[|run| - 1]);
    }
  }

  lemma InterferenceBetrays(s: State, e: Event)
    requires QueueInv(s) && Step(s, e).Some? && Interferes(s, e)
    ensures exists c :: Betrayed(Step(s, e).value, c)
  {
    assert Betrayed(Step(s, e).value, e.c);
  }

  lemma BetrayalLasts(s: State, e: Event, c: nat)
    requires Step(s, e).Some? && Betrayed(s, c)
    ensures Betrayed(Step(s, e).value, c)
  {
  }

  /** Exactly when the results can be trusted: some call failed although its target was
      installed, or is about to be, if and only if the control side interfered with the
      queue thread's block. */
  lemma {:induction false} BetrayedIffDisturbed(run: seq<Event>)
    requires Valid(run)
    ensures (exists c :: Betrayed(After(run), c)) <==> Disturbed(run)
  {
    if !Disturbed(run) {
      UndisturbedKeepsCalls(run);
      forall c ensures !Betrayed(After(run), c) {
        assert c in After(run).calls ==> CallInv(After(run), c);
      }
    } else {
      hide Step, Interferes, Betrayed;
      var p := run[..|run| - 1];
      if Disturbed(p) {
        BetrayedIffDisturbed(p);
        var c :| Betrayed(After(p), c);
        BetrayalLasts(After(p), run[|run| - 1], c);
        assert Betrayed(After(run), c);
      } else {
        RunKeepsQueue(p);
        InterferenceBetrays(After(p), run[|run| - 1]);
        var c :| Betrayed(Step(After(p), run[|run| - 1]).value, c);
        assert Betrayed(After(run), c);
      }
    }
  }

  /** The queue thread's block runs without anything in between. */
  predicate BlockIsAtomic(run: seq<Event>)
    requires Valid(run)
  {
    if run == [] then true
    else
      && BlockIsAtomic(run[..|run| - 1])
      && (After(run[..|run| - 1]).queue.Polling? || OfQueue(run[|run| - 1]))
  }

  /** Then nothing is disturbed, and all results are honest. */
  lemma {:induction false} AtomicIsUndisturbed(run: seq<Event>)
    requires Valid(run) && BlockIsAtomic(run)
    ensures !Disturbed(run)
  {
    if run != [] {
      hide Step;
      AtomicIsUndisturbed(run[..|run| - 1]);
    }
  }

  // ----- replaced targets

  /** Targets are installed once: one not yet applied is neither current nor replaced, and
      a replaced one is not current. */
  predicate TargetsInv(s: State) {
    && (forall c | c in s.calls :: s.calls[c].newTarget != 0)
    && (forall c, d | c in s.calls && d in s.calls && c != d :: s.calls[c].newTarget != s.calls[d].newTarget)
    && Known(s, s.dispatch)
    && (forall c | c in s.calls && s.calls[c].applied ::
          Known(s, s.calls[c].oldTarget) && s.calls[c].oldTarget != s.dispatch)
  }

  /** The initial target, or one that was applied. */
  predicate Known(s: State, t: nat) {
    t == 0 || exists c :: c in s.calls && s.calls[c].applied && s.calls[c].newTarget == t
  }

  lemma KnownLasts(s: State, e: Event, t: nat)
    requires Step(s, e).Some? && Known(s, t)
    ensures Known(Step(s, e).value, t)
  {
    if t != 0 {
      var c :| c in s.calls && s.calls[c].applied && s.calls[c].newTarget == t;
      assert c in Step(s, e).value.calls && Step(s, e).value.calls[c].applied
             && Step(s, e).value.calls[c].newTarget == t;
    }
  }

  lemma InstallKeepsTargets(s: State)
    requires TargetsInv(s) && QueueInv(s) && Step(s, Install).Some?
    ensures TargetsInv(Step(s, Install).value)
  {
    var t := Step(s, Install).value;
    var c := s.queue.c;
    assert c in t.calls && t.calls[c].applied && t.calls[c].newTarget == t.dispatch;
    KnownLasts(s, Install, s.dispatch);
    forall d | d in t.calls && t.calls[d].applied
      ensures Known(t, t.calls[d].oldTarget) && t.calls[d].oldTarget != t.dispatch
    {
      if d != c {
        KnownLasts(s, Install, s.calls[d].oldTarget);
      }
    }
  }

  /** Only Install changes what is installed. */
  predicate SameInstalled(s: State, t: State) {
    && t.dispatch == s.dispatch
    && (forall c | c in s.calls :: c in t.calls)
    && forall c | c in t.calls ::
         if c in s.calls
         then && t.calls[c].newTarget == s.calls[c].newTarget
              && t.calls[c].oldTarget == s.calls[c].oldTarget
              && t.calls[c].applied == s.calls[c].applied
         else !t.calls[c].applied && FreshTarget(s, t.calls[c].newTarget)
              && forall d | d in t.calls && d != c :: d in s.calls
  }

  lemma OtherKeepsInstalled(s: State, e: Event)
    requires Step(s, e).Some? && e != Install
    ensures SameInstalled(s, Step(s, e).value)
  {
  }

  lemma SameKeepsKnown(s: State, t: State, x: nat)
    requires SameInstalled(s, t) && Known(s, x)
    ensures Known(t, x)
  {
    if x != 0 {
      var c :| c in s.calls && s.calls[c].applied && s.calls[c].newTarget == x;
      assert c in t.calls && t.calls[c].applied && t.calls[c].newTarget == x;
    }
  }

  lemma OtherKeepsTargets(s: State, t: State)
    requires TargetsInv(s) && SameInstalled(s, t)
    ensures TargetsInv(t)
  {
    hide Known;
    SameKeepsKnown(s, t, s.dispatch);
    forall d | d in t.calls && t.calls[d].applied
      ensures Known(t, t.calls[d].oldTarget) && t.calls[d].oldTarget != t.dispatch
    {
      SameKeepsKnown(s, t, s.calls[d].oldTarget);
    }
  }

  lemma {:induction false} RunKeepsTargets(run: seq<Event>)
    requires Valid(run)
    ensures TargetsInv(After(run))
  {
    if run != [] {
      hide Step, TargetsInv, QueueInv, SameInstalled;
      var p := run[..|run| - 1];
      RunKeepsTargets(p);
      RunKeepsQueue(p);
      if run[|run| - 1] == Install {
        InstallKeepsTargets(After(p));
      } else {
        OtherKeepsInstalled(After(p), run[|run| - 1]);
        OtherKeepsTargets(After(p), After(run));
      }
    } else {
      assert TargetsInv(Init());
    }
  }

  /** The target a call replaced is free to delete: neither the queue nor any running I/O
      has it, in any run. */
  lemma ReplacedIsUnused(run: seq<Event>, c: nat)
    requires Valid(run) && c in After(run).calls && After(run).calls[c].applied
    ensures var s := After(run);
            && s.calls[c].oldTarget != s.dispatch
            && forall i | i in s.io && s.io[i].Running? :: s.io[i].target != s.calls[c].oldTarget
  {
    RunKeepsTargets(run);
    RunKeepsIo(run);
  }

  // ----- the device's own record of its target

  /** The call whose target was installed last, and the one that recorded its target
      last. */
  function LastInstalled(run: seq<Event>): Option<nat>
    requires Valid(run)
  {
    if run == [] then None
    else
      var p := run[..|run| - 1];
      if run[|run| - 1] == Install then Some(After(p).queue.c) else LastInstalled(p)
  }

  function LastCommitted(run: seq<Event>): Option<nat> {
    if run == [] then None
    else if run[|run| - 1].Commit? then Some(run[|run| - 1].c) else LastCommitted(run[..|run| - 1])
  }

  function TargetOf(s: State, c: Option<nat>): nat
    requires c.Some? ==> c.value in s.calls
  {
    if c.None? then 0 else s.calls[c.value].newTarget
  }

  lemma TargetsStay(s: State, e: Event, c: nat)
    requires Step(s, e).Some? && c in s.calls
    ensures c in Step(s, e).value.calls
    ensures Step(s, e).value.calls[c].newTarget == s.calls[c].newTarget
  {
  }

  lemma {:induction false} RecordedTargets(run: seq<Event>)
    requires Valid(run)
    ensures LastInstalled(run).Some? ==> LastInstalled(run).value in After(run).calls
    ensures LastCommitted(run).Some? ==> LastCommitted(run).value in After(run).calls
    ensures After(run).dispatch == TargetOf(After(run), LastInstalled(run))
    ensures After(run).target == TargetOf(After(run), LastCommitted(run))
  {
    if run != [] {
      var p, e := run[..|run| - 1], run[|run| - 1];
      RecordedTargets(p);
      StepRecords(After(p), e);
      hide Step;
      if LastInstalled(p).Some? { TargetsStay(After(p), e, LastInstalled(p).value); }
      if LastCommitted(p).Some? { TargetsStay(After(p), e, LastCommitted(p).value); }
    }
  }

  /** Install alone changes the dispatch target, Commit alone the recorded one. */
  lemma StepRecords(s: State, e: Event)
    requires Step(s, e).Some?
    ensures var t := Step(s, e).value;
            && (if e == Install
                then s.queue.Loaded? && s.queue.c in t.calls && t.dispatch == t.calls[s.queue.c].newTarget
                else t.dispatch == s.dispatch)
            && (if e.Commit?
                then e.c in t.calls && t.target == t.calls[e.c].newTarget
                else t.target == s.target)
  {
  }

  /** `target_` agrees with the queue's target exactly when the last call that recorded
      its target is the last one whose target was installed. */
  lemma AgreementExactly(run: seq<Event>)
    requires Valid(run)
    ensures After(run).target == After(run).dispatch <==> LastCommitted(run) == LastInstalled(run)
  {
    RecordedTargets(run);
    RunKeepsTargets(run);
  }

  predicate Active(p: Phase) {
    !p.Won? && !p.Lost?
  }

  predicate NoneActive(s: State) {
    forall c | c in s.calls :: !Active(s.calls[c].phase)
  }

  // ----- disagreement is overlap

  /** The queue thread installs the target of call `c` at `k`. */
  ghost predicate InstalledAt(run: seq<Event>, k: nat, c: nat) {
    k < |run| && run[k] == Install && Valid(run[..k]) && After(run[..k]).queue == Loaded(c)
  }

  /** Call `c` records its target at `k`. */
  predicate RecordedAt(run: seq<Event>, k: nat, c: nat) {
    k < |run| && run[k] == Commit(c)
  }

  /** Call `d` was installed and recorded its target between the install and the record
      of call `c`. */
  ghost predicate Nested(run: seq<Event>, c: nat, d: nat) {
    c != d && exists i: nat, j: nat, m: nat, n: nat :: i < j < m < n && InstalledAt(run, i, c) && InstalledAt(run, j, d)
                                   && RecordedAt(run, m, d) && RecordedAt(run, n, c)
  }

  lemma InstalledInPrefix(run: seq<Event>, p: nat, k: nat, c: nat)
    requires k < p <= |run|
    ensures InstalledAt(run[..p], k, c) <==> InstalledAt(run, k, c)
  {
    assert run[..p][..k] == run[..k];
  }

  lemma StepApplies(s: State, e: Event, c: nat)
    requires Step(s, e).Some? && c in Step(s, e).value.calls
    ensures var t := Step(s, e).value;
            && (c in s.calls && s.calls[c].applied ==> t.calls[c].applied)
            && (e == Install && s.queue == Loaded(c) ==> t.calls[c].applied)
            && (t.calls[c].applied && !(c in s.calls && s.calls[c].applied) ==> e == Install && s.queue == Loaded(c))
            && (t.calls[c].phase.Won? && !(c in s.calls && s.calls[c].phase.Won?) ==> e == Commit(c))
  {
  }

  lemma CallsStay(s: State, e: Event, c: nat)
    requires Step(s, e).Some? && (c in s.calls || (e == Install && s.queue == Loaded(c)))
    ensures c in Step(s, e).value.calls
  {
  }

  lemma {:induction false} AppliedWasInstalled(run: seq<Event>, c: nat)
    requires Valid(run) && c in After(run).calls && After(run).calls[c].applied
    ensures exists k: nat :: InstalledAt(run, k, c)
  {
    var n := |run| - 1;
    var p := run[..n];
    var s := After(p);
    StepApplies(s, run[n], c);
    hide Step;
    if c in s.calls && s.calls[c].applied {
      AppliedWasInstalled(p, c);
      var k: nat :| InstalledAt(p, k, c);
      InstalledInPrefix(run, n, k, c);
    } else {
      assert InstalledAt(run, n, c);
    }
  }

  lemma {:induction false} InstalledIsApplied(run: seq<Event>, k: nat, c: nat)
    requires Valid(run) && InstalledAt(run, k, c)
    ensures c in After(run).calls && After(run).calls[c].applied
  {
    hide Step;
    var n := |run| - 1;
    if k < n {
      InstalledInPrefix(run, n, k, c);
      InstalledIsApplied(run[..n], k, c);
    }
    CallsStay(After(run[..n]), run[n], c);
    StepApplies(After(run[..n]), run[n], c);
  }

  lemma InstalledOnce(run: seq<Event>, i: nat, j: nat, c: nat)
    requires Valid(run) && InstalledAt(run, i, c) && InstalledAt(run, j, c)
    ensures i >= j
  {
    if i < j {
      hide Step;
      InstalledInPrefix(run, j, i, c);
      InstalledIsApplied(run[..j], i, c);
      RunKeepsQueue(run[..j]);
    }
  }

  lemma {:induction false} WonWasRecorded(run: seq<Event>, c: nat)
    requires Valid(run) && In(After(run), c, Won)
    ensures exists k: nat :: RecordedAt(run, k, c)
  {
    var n := |run| - 1;
    var s := After(run[..n]);
    StepApplies(s, run[n], c);
    hide Step;
    if In(s, c, Won) {
      WonWasRecorded(run[..n], c);
      var k: nat :| RecordedAt(run[..n], k, c);
      assert RecordedAt(run, k, c);
    } else {
      assert RecordedAt(run, n, c);
    }
  }

  lemma {:induction false} PrefixUndisturbed(run: seq<Event>, k: nat)
    requires Valid(run) && !Disturbed(run) && k <= |run|
    ensures Valid(run[..k]) && !Disturbed(run[..k])
  {
    hide Step, Interferes;
    if k == |run| {
      assert run[..k] == run;
    } else {
      PrefixUndisturbed(run[..|run| - 1], k);
      assert run[..|run| - 1][..k] == run[..k];
    }
  }

  /** A call records its target after it was installed. */
  lemma RecordedWasInstalled(run: seq<Event>, m: nat, c: nat)
    requires Valid(run) && !Disturbed(run) && RecordedAt(run, m, c)
    ensures exists j: nat :: j < m && InstalledAt(run, j, c)
  {
    PrefixUndisturbed(run, m);
    StepAt(Step, Init(), run, m);
    var p := run[..m];
    assert In(After(p), c, Committing);
    UndisturbedKeepsCalls(p);
    CallsTell(After(p), c);
    hide Step;
    AppliedWasInstalled(p, c);
    var j: nat :| InstalledAt(p, j, c);
    InstalledInPrefix(run, m, j, c);
  }

  predicate NoneAfter(run: seq<Event>, j: nat) {
    forall k: nat | j < k < |run| :: run[k] != Install
  }

  lemma NoneAfterGrows(run: seq<Event>, j: nat)
    requires run != [] && run[|run| - 1] != Install && NoneAfter(run[..|run| - 1], j)
    ensures NoneAfter(run, j)
  {
    forall k: nat | j < k < |run| ensures run[k] != Install {
      assert k < |run| - 1 ==> run[..|run| - 1][k] == run[k];
    }
  }

  lemma InstallsHere(run: seq<Event>)
    requires Valid(run) && run != [] && run[|run| - 1] == Install
    ensures LastInstalled(run).Some? && InstalledAt(run, |run| - 1, LastInstalled(run).value)
  {
  }

  lemma {:induction false} LastInstallIs(run: seq<Event>, d: nat)
    requires Valid(run) && LastInstalled(run) == Some(d)
    ensures exists j: nat :: InstalledAt(run, j, d) && NoneAfter(run, j)
  {
    hide Step, NoneAfter, InstalledAt;
    var n := |run| - 1;
    if run[n] == Install {
      InstallsHere(run);
      assert NoneAfter(run, n) by { NothingAfterEnd(run); }
    } else {
      LastInstallIs(run[..n], d);
      var j: nat :| InstalledAt(run[..n], j, d) && NoneAfter(run[..n], j);
      NoneAfterGrows(run, j);
      InstalledBelow(run[..n], j, d);
      InstalledInPrefix(run, n, j, d);
    }
  }

  lemma NothingAfterEnd(run: seq<Event>)
    requires run != []
    ensures NoneAfter(run, |run| - 1)
  {
  }

  lemma InstalledBelow(run: seq<Event>, j: nat, d: nat)
    requires InstalledAt(run, j, d)
    ensures j < |run|
  {
  }

  lemma {:induction false} LastRecordIs(run: seq<Event>, c: nat)
    requires LastCommitted(run) == Some(c)
    ensures exists n: nat :: RecordedAt(run, n, c) && forall k: nat | n < k < |run| :: !run[k].Commit?
  {
    var l := |run| - 1;
    if run[l].Commit? {
      assert RecordedAt(run, l, c);
    } else {
      LastRecordIs(run[..l], c);
      var n: nat :| RecordedAt(run[..l], n, c) && forall k: nat | n < k < l :: !run[..l][k].Commit?;
      assert RecordedAt(run, n, c);
      assert forall k: nat | n < k < l :: run[k] == run[..l][k];
    }
  }

  lemma {:induction false} NoRecord(run: seq<Event>, k: nat, c: nat)
    requires RecordedAt(run, k, c)
    ensures LastCommitted(run).Some?
  {
    if !run[|run| - 1].Commit? {
      NoRecord(run[..|run| - 1], k, c);
    }
  }

  lemma {:induction false} NoInstall(run: seq<Event>, k: nat, c: nat)
    requires Valid(run) && InstalledAt(run, k, c)
    ensures LastInstalled(run).Some?
  {
    if run[|run| - 1] != Install {
      hide Step;
      InstalledInPrefix(run, |run| - 1, k, c);
      NoInstall(run[..|run| - 1], k, c);
    }
  }

  /** With no call active, every installed call has recorded its target. */
  lemma InstalledWasRecorded(run: seq<Event>, j: nat, d: nat)
    requires Valid(run) && !Disturbed(run) && NoneActive(After(run)) && InstalledAt(run, j, d)
    ensures exists m: nat :: RecordedAt(run, m, d)
  {
    hide Step, Disturbed;
    InstalledIsApplied(run, j, d);
    ResultsAreHonest(run, d);
    WonWasRecorded(run, d);
  }

  /** A call that overtakes the last one to record its target. */
  lemma DisagreementNests(run: seq<Event>, c: nat, d: nat)
    requires Valid(run) && !Disturbed(run) && NoneActive(After(run))
    requires LastCommitted(run) == Some(c) && LastInstalled(run) == Some(d) && c != d
    ensures Nested(run, c, d)
  {
    hide Step, Disturbed, NoneActive, LastInstalled, LastCommitted;
    LastInstallIs(run, d);
    var j: nat :| InstalledAt(run, j, d) && NoneAfter(run, j);
    LastRecordIs(run, c);
    var n: nat :| RecordedAt(run, n, c) && forall k: nat | n < k < |run| :: !run[k].Commit?;
    RecordedWasInstalled(run, n, c);
    var i: nat :| i < n && InstalledAt(run, i, c);
    InstalledWasRecorded(run, j, d);
    var m: nat :| RecordedAt(run, m, d);
    RecordedWasInstalled(run, m, d);
    var j': nat :| j' < m && InstalledAt(run, j', d);
    InstalledOnce(run, j', j, d);
    InstalledOnce(run, j, j', d);
    assert i < j < m < n;
  }

  lemma NestingDisagrees(run: seq<Event>, c: nat, d: nat)
    requires Valid(run) && Nested(run, c, d) && LastCommitted(run) == Some(c)
    ensures LastInstalled(run) != LastCommitted(run)
  {
    hide Step, LastInstalled, LastCommitted;
    if LastInstalled(run) == Some(c) {
      var i: nat, j: nat, m: nat, n: nat :| i < j < m < n && InstalledAt(run, i, c) && InstalledAt(run, j, d)
                        && RecordedAt(run, m, d) && RecordedAt(run, n, c);
      LastInstallIs(run, c);
      var l: nat :| InstalledAt(run, l, c) && NoneAfter(run, l);
      InstalledOnce(run, i, l, c);
    }
  }

  /** In an undisturbed run with no active call, `target_` disagrees with the queue's target if
      and only if another call was installed and recorded between the install and the record
      of the call that recorded its target last: only overlapping calls can do that. */
  lemma DisagreementIsOverlap(run: seq<Event>)
    requires Valid(run) && !Disturbed(run) && NoneActive(After(run))
    ensures After(run).target != After(run).dispatch <==>
            LastCommitted(run).Some? && exists d :: Nested(run, LastCommitted(run).value, d)
  {
    AgreementExactly(run);
    hide Step, Disturbed, NoneActive, LastInstalled, LastCommitted, Nested;
    if LastCommitted(run) != LastInstalled(run) {
      BothLast(run);
      DisagreementNests(run, LastCommitted(run).value, LastInstalled(run).value);
    } else if LastCommitted(run).Some? {
      forall d ensures !Nested(run, LastCommitted(run).value, d) {
        if Nested(run, LastCommitted(run).value, d) {
          NestingDisagrees(run, LastCommitted(run).value, d);
        }
      }
    }
  }

  lemma BothLast(run: seq<Event>)
    requires Valid(run) && !Disturbed(run) && NoneActive(After(run))
    ensures LastCommitted(run).Some? <==> LastInstalled(run).Some?
  {
    hide Step, Disturbed, NoneActive, LastInstalled, LastCommitted;
    if LastCommitted(run).Some? {
      var c := LastCommitted(run).value;
      LastRecordIs(run, c);
      var n: nat :| RecordedAt(run, n, c);
      RecordedWasInstalled(run, n, c);
      var i: nat :| InstalledAt(run, i, c);
      NoInstall(run, i, c);
    }
    if LastInstalled(run).Some? {
      var d := LastInstalled(run).value;
      LastInstallIs(run, d);
      var j: nat :| InstalledAt(run, j, d);
      InstalledWasRecorded(run, j, d);
      var m: nat :| RecordedAt(run, m, d);
      NoRecord(run, m, d);
    }
  }

  // ----- the file that is handed back

  lemma WonStays(s: State, e: Event, c: nat)
    requires Step(s, e).Some?
    ensures In(s, c, Won) ==> In(Step(s, e).value, c, Won)
    ensures e == Commit(c) ==> In(s, c, Committing) && In(Step(s, e).value, c, Won)
  {
  }

  lemma {:induction false} RecordedIsWon(run: seq<Event>, k: nat, c: nat)
    requires Valid(run) && RecordedAt(run, k, c)
    ensures In(After(run), c, Won)
  {
    hide Step;
    var n := |run| - 1;
    if k < n {
      RecordedIsWon(run[..n], k, c);
    }
    WonStays(After(run[..n]), run[n], c);
  }

  /** A call records its target once. */
  lemma RecordedOnce(run: seq<Event>, k: nat, n: nat, c: nat)
    requires Valid(run) && RecordedAt(run, k, c) && n < k
    ensures !RecordedAt(run[..k], n, c)
  {
    StepAt(Step, Init(), run, k);
    WonStays(After(run[..k]), run[k], c);
    if RecordedAt(run[..k], n, c) {
      hide Step;
      RecordedIsWon(run[..k], n, c);
    }
  }

  /** When call `c` records its target at `k` it is handed the file recorded until then, to
      delete. Nothing uses that file unless it is the one behind the queue's target, and it is
      that exactly when the call `d` that installed and recorded last did both between the
      install and the record of `c`. */
  lemma HandedBack(run: seq<Event>, k: nat, c: nat)
    requires Valid(run) && !Disturbed(run) && RecordedAt(run, k, c)
    ensures Valid(run[..k])
    ensures var s := After(run[..k]);
            s.target != s.dispatch ==> forall i | i in s.io && s.io[i].Running? :: s.io[i].target != s.target
    ensures var p := run[..k];
            After(p).target == After(p).dispatch <==>
              exists d :: LastCommitted(p) == LastInstalled(p) == Some(d) && Nested(run[..k + 1], c, d)
  {
    PrefixUndisturbed(run, k);
    var p := run[..k];
    RunKeepsIo(p);
    AgreementExactly(p);
    hide Step, Disturbed, LastInstalled, LastCommitted, Nested;
    if LastCommitted(p) == LastInstalled(p) {
      OvertakenBy(run, k, c);
    }
  }

  lemma OvertakenBy(run: seq<Event>, k: nat, c: nat)
    requires Valid(run) && !Disturbed(run) && RecordedAt(run, k, c) && Valid(run[..k])
    requires LastCommitted(run[..k]) == LastInstalled(run[..k])
    ensures LastInstalled(run[..k]).Some? && Nested(run[..k + 1], c, LastInstalled(run[..k]).value)
  {
    hide Step, Disturbed, LastInstalled, LastCommitted, InstalledAt;
    PrefixUndisturbed(run, k);
    var p, q := run[..k], run[..k + 1];
    RecordedWasInstalled(run, k, c);
    var i: nat :| i < k && InstalledAt(run, i, c);
    InstalledInPrefix(run, k, i, c);
    NoInstall(p, i, c);
    var d := LastInstalled(p).value;
    var j, n := LastInOrder(p, d);
    RecordedOnce(run, k, n, c);
    assert c != d;
    assert j < n < k;
    LastIsLater(p, i, j, c, d);
    InstalledInPrefix(run, k, j, d);
    InstalledInPrefix(run, k + 1, i, c);
    InstalledInPrefix(run, k + 1, j, d);
    assert RecordedAt(q, n, d) && RecordedAt(q, k, c);
  }

  /** The last install comes before the last record, of the same call. */
  lemma LastInOrder(p: seq<Event>, d: nat) returns (j: nat, n: nat)
    requires Valid(p) && !Disturbed(p) && LastInstalled(p) == LastCommitted(p) == Some(d)
    ensures InstalledAt(p, j, d) && NoneAfter(p, j) && RecordedAt(p, n, d) && j < n < |p|
  {
    hide Step, Disturbed, LastInstalled, LastCommitted, InstalledAt, NoneAfter;
    LastRecordIs(p, d);
    n :| RecordedAt(p, n, d);
    LastInstallIs(p, d);
    j :| InstalledAt(p, j, d) && NoneAfter(p, j);
    RecordedWasInstalled(p, n, d);
    var j': nat :| j' < n && InstalledAt(p, j', d);
    InstalledOnce(p, j', j, d);
    InstalledOnce(p, j, j', d);
  }

  lemma LastIsLater(p: seq<Event>, i: nat, j: nat, c: nat, d: nat)
    requires InstalledAt(p, i, c) && InstalledAt(p, j, d) && NoneAfter(p, j) && c != d
    ensures i < j
  {
    hide Step;
  }

  // ----- the request on the caller's stack

  /** The queue thread is about to touch the request of a call that has returned; the request
      was on that call's stack. */
  predicate Dangling(s: State) {
    !s.queue.Polling? && s.queue.c in s.calls && !Active(s.calls[s.queue.c].phase)
  }

  lemma InterferenceDangles(s: State, e: Event)
    requires QueueInv(s) && Step(s, e).Some? && Interferes(s, e)
    ensures Dangling(Step(s, e).value)
  {
  }

  ghost predicate EverDangles(run: seq<Event>) {
    exists k :: 0 <= k <= |run| && Valid(run[..k]) && Dangling(After(run[..k]))
  }

  /** The queue thread has a dead request in hand at some moment of a run exactly when the
      control side interfered: in undisturbed runs it installs and signals only calls that
      have not returned. */
  lemma {:induction false} DanglesIffDisturbed(run: seq<Event>)
    requires Valid(run)
    ensures EverDangles(run) <==> Disturbed(run)
  {
    hide Step, Interferes;
    if Disturbed(run) {
      var n := |run| - 1;
      if Disturbed(run[..n]) {
        DanglesIffDisturbed(run[..n]);
        var k :| 0 <= k <= n && Valid(run[..n][..k]) && Dangling(After(run[..n][..k]));
        assert run[..n][..k] == run[..k];
      } else {
        RunKeepsQueue(run[..n]);
        InterferenceDangles(After(run[..n]), run[n]);
        assert run[..|run|] == run;
      }
    } else {
      forall k | 0 <= k <= |run| && Valid(run[..k]) ensures !Dangling(After(run[..k])) {
        PrefixUndisturbed(run, k);
        UndisturbedKeepsCalls(run[..k]);
        NotDangling(After(run[..k]));
      }
    }
  }

  lemma NotDangling(s: State)
    requires CallsInv(s)
    ensures !Dangling(s)
  {
    if !s.queue.Polling? {
      CallsTell(s, s.queue.c);
    }
  }

  /** No call is entered while another one is active. */
  predicate Serialised(run: seq<Event>)
    requires Valid(run)
  {
    if run == [] then true
    else
      && Serialised(run[..|run| - 1])
      && (run[|run| - 1].Enter? ==> NoneActive(After(run[..|run| - 1])))
  }

  /** With one call at a time only a call that was applied and has not recorded it yet
      makes a difference. */
  ghost predicate SerialInv(s: State) {
    && (forall c, d | c in s.calls && d in s.calls && Active(s.calls[c].phase) && Active(s.calls[d].phase) :: c == d)
    && (forall c | Outstanding(s, c) :: s.calls[c].newTarget == s.dispatch)
    && ((forall c :: !Outstanding(s, c)) ==> s.target == s.dispatch)
  }

  predicate Outstanding(s: State, c: nat) {
    c in s.calls && Active(s.calls[c].phase) && s.calls[c].applied
  }

  lemma InstallKeepsSerial(s: State)
    requires SerialInv(s) && CallsInv(s) && Step(s, Install).Some?
    ensures SerialInv(Step(s, Install).value)
  {
    CallsTell(s, s.queue.c);
    hide CallsInv;
    assert Outstanding(Step(s, Install).value, s.queue.c);
  }

  lemma CommitKeepsSerial(s: State, c: nat)
    requires SerialInv(s) && CallsInv(s) && Step(s, Commit(c)).Some?
    ensures SerialInv(Step(s, Commit(c)).value)
  {
    CallsTell(s, c);
    hide CallsInv;
    assert Outstanding(s, c);
  }

  /** Apart from Install and Commit: nothing becomes outstanding, only a new call becomes
      active, and an applied call gives up only by failing. */
  lemma OtherPhases(s: State, e: Event, c: nat)
    requires Step(s, e).Some? && e != Install && !e.Commit?
    ensures var t := Step(s, e).value;
            && t.target == s.target && t.dispatch == s.dispatch
            && (c in t.calls && Active(t.calls[c].phase) ==>
                  if c in s.calls then Active(s.calls[c].phase) else e.Enter?)
            && (Outstanding(t, c) ==> Outstanding(s, c) && t.calls[c].newTarget == s.calls[c].newTarget)
            && (Outstanding(s, c) && !Outstanding(t, c) ==>
                  c in t.calls && t.calls[c].phase.Lost? && t.calls[c].applied)
            && (e.Enter? && c in t.calls && c !in s.calls ==> c == e.c)
  {
  }

  lemma OtherKeepsSerial(s: State, e: Event)
    requires SerialInv(s) && Step(s, e).Some? && e != Install && !e.Commit?
    requires CallsInv(Step(s, e).value)
    requires e.Enter? ==> NoneActive(s)
    ensures SerialInv(Step(s, e).value)
  {
    var t := Step(s, e).value;
    hide Step, CallInv;
    forall c ensures Outstanding(t, c) <==> Outstanding(s, c) {
      OtherPhases(s, e, c);
      if c in t.calls && t.calls[c].phase.Lost? {
        LostIsUnapplied(t, c);
      }
    }
    forall c | Outstanding(t, c) ensures t.calls[c].newTarget == t.dispatch {
      OtherPhases(s, e, c);
    }
    forall c, d | c in t.calls && d in t.calls && Active(t.calls[c].phase) && Active(t.calls[d].phase) ensures c == d {
      OtherPhases(s, e, c);
      OtherPhases(s, e, d);
    }
    OtherPhases(s, e, 0);
  }

  lemma LostIsUnapplied(s: State, c: nat)
    requires CallsInv(s) && c in s.calls && s.calls[c].phase.Lost?
    ensures !s.calls[c].applied
  {
    CallsTell(s, c);
  }

  lemma {:induction false} SerialisedKeeps(run: seq<Event>)
    requires Valid(run) && Serialised(run) && !Disturbed(run)
    ensures SerialInv(After(run))
  {
    if run != [] {
      var p, e := run[..|run| - 1], run[|run| - 1];
      SerialisedKeeps(p);
      UndisturbedKeepsCalls(p);
      UndisturbedKeepsCalls(run);
      hide SerialInv, CallsInv, Step;
      if e == Install {
        InstallKeepsSerial(After(p));
      } else if e.Commit? {
        CommitKeepsSerial(After(p), e.c);
      } else {
        OtherKeepsSerial(After(p), e);
      }
    }
  }

  /** With calls one at a time and no interference, `target_` agrees with the queue's
      target whenever no swap call is active. */
  lemma QuiescentAgreement(run: seq<Event>)
    requires Valid(run) && Serialised(run) && !Disturbed(run)
    requires NoneActive(After(run))
    ensures After(run).target == After(run).dispatch
  {
    SerialisedKeeps(run);
  }

  // ----- the conditions are needed

  /** A run goes on with an event that interferes with nothing. */
  lemma Next(run: seq<Event>, e: Event, t: State)
    requires Valid(run) && Step(After(run), e).Some?
    requires Step(After(run), e).value.calls == t.calls
    requires Step(After(run), e).value.(calls := map[]) == t.(calls := map[])
    ensures Valid(run + [e]) && After(run + [e]) == t
    ensures Disturbed(run + [e]) <==> Disturbed(run) || Interferes(After(run), e)
  {
    ExecAppend(Step, Init(), run, e);
    assert (run + [e])[..|run|] == run;
  }

  /** Call 1 is posted on an idle device. */
  lemma OnePosted() returns (run: seq<Event>)
    ensures Valid(run) && !Disturbed(run)
    ensures After(run) == State(0, 0, map[], 0, Some(1), Polling, false, map[1 := Call(1, Waiting, 0, false, 0)])
  {
    run := [];
    var s1 := Init().(calls := map[1 := Call(1, Posting, 0, false, 0)]);
    Next(run, Enter(1, 1), s1);
    run := run + [Enter(1, 1)];
    Next(run, Post(1), s1.(calls := map[1 := Call(1, Waiting, 0, false, 0)], pending := Some(1)));
    run := run + [Post(1)];
  }

  /** A posted request is applied in one go. */
  lemma Applied(before: seq<Event>, c: nat) returns (run: seq<Event>)
    requires Valid(before) && !Disturbed(before)
    requires var s := After(before);
             && s.pending == Some(c) && c in s.calls
             && s.queue.Polling? && !s.exited && s.inflight == 0
    ensures Valid(run) && !Disturbed(run)
    ensures var s := After(before); var r := s.calls[c];
            After(run) == s.(dispatch := r.newTarget, pending := None,
                             calls := s.calls[c := r.(oldTarget := s.dispatch, applied := true,
                                 signals := r.signals + 1)])
  {
    var s := After(before);
    var r := s.calls[c];
    var r2 := r.(oldTarget := s.dispatch, applied := true);
    var s1 := s.(queue := Loaded(c));
    var s2 := s1.(dispatch := r.newTarget, queue := Installed(c), calls := s.calls[c := r2]);
    var s3 := s2.(pending := None, queue := Cleared(c));
    BlockSteps(s, s1, s2, s3, c);
    hide Step, Valid, After, Disturbed;
    Next(before, Load, s1);
    run := before + [Load];
    Next(run, Install, s2);
    run := run + [Install];
    Next(run, Clear, s3);
    run := run + [Clear];
    Next(run, Signal, s3.(queue := Polling, calls := s.calls[c := r2.(signals := r.signals + 1)]));
    run := run + [Signal];
  }

  /** The four steps of the queue thread's block. */
  lemma BlockSteps(s: State, s1: State, s2: State, s3: State, c: nat)
    requires s.pending == Some(c) && c in s.calls && s.queue.Polling? && !s.exited && s.inflight == 0
    requires var r := s.calls[c];
             && s1 == s.(queue := Loaded(c))
             && s2 == s1.(dispatch := r.newTarget, queue := Installed(c),
                          calls := s.calls[c := r.(oldTarget := s.dispatch, applied := true)])
             && s3 == s2.(pending := None, queue := Cleared(c))
    ensures Step(s, Load) == Some(s1) && Step(s1, Install) == Some(s2) && Step(s2, Clear) == Some(s3)
    ensures var r := s.calls[c].(oldTarget := s.dispatch, applied := true);
            && Step(s3, Signal).Some?
            && Step(s3, Signal).value.calls == s.calls[c := r.(signals := r.signals + 1)]
            && Step(s3, Signal).value.(calls := map[]) == s3.(queue := Polling, calls := map[])
  {
  }

  /** Two calls on one device at the same time: the second is applied and recorded before
      the first records its target, and the device is left believing in the target that
      is not installed. */
  lemma OverlapDisagrees() returns (run: seq<Event>)
    ensures Valid(run) && !Disturbed(run) && NoneActive(After(run))
    ensures After(run).dispatch == 2 && After(run).target == 1
    ensures HandsBackCurrent(run, 1)
  {
    hide Step, Disturbed, Valid, After;
    run := OnePosted();
    run := Applied(run, 1);
    assert After(run).calls == map[1 := Call(1, Waiting, 0, true, 1)];
    run := SecondPosted(run);
    run := Applied(run, 2);
    assert After(run).calls == map[1 := Call(1, Waiting, 0, true, 1), 2 := Call(2, Waiting, 1, true, 1)];
    run := RecordBoth(run);
  }

  lemma SecondPosted(before: seq<Event>) returns (run: seq<Event>)
    requires Valid(before) && !Disturbed(before)
    requires After(before) == State(1, 0, map[], 0, None, Polling, false, map[1 := Call(1, Waiting, 0, true, 1)])
    ensures Valid(run) && !Disturbed(run)
    ensures After(run) == State(1, 0, map[], 0, Some(2), Polling, false,
                                map[1 := Call(1, Waiting, 0, true, 1), 2 := Call(2, Waiting, 0, false, 0)])
  {
    var one := Call(1, Waiting, 0, true, 1);
    var s1 := After(before).(calls := map[1 := one, 2 := Call(2, Posting, 0, false, 0)]);
    Next(before, Enter(2, 2), s1);
    run := before + [Enter(2, 2)];
    Next(run, Post(2), s1.(pending := Some(2), calls := map[1 := one, 2 := Call(2, Waiting, 0, false, 0)]));
    run := run + [Post(2)];
  }

  lemma RecordBoth(before: seq<Event>) returns (run: seq<Event>)
    requires Valid(before) && !Disturbed(before)
    requires After(before) == State(2, 0, map[], 0, None, Polling, false,
                                    map[1 := Call(1, Waiting, 0, true, 1), 2 := Call(2, Waiting, 1, true, 1)])
    ensures Valid(run) && !Disturbed(run) && NoneActive(After(run))
    ensures After(run).dispatch == 2 && After(run).target == 1
    ensures HandsBackCurrent(run, 1)
  {
    run := WakeAndCommit(before, 2);
    assert After(run).calls == map[1 := Call(1, Waiting, 0, true, 1), 2 := Call(2, Won, 1, true, 0)];
    run := WakeAndCommit(run, 1);
    assert After(run).calls == map[1 := Call(1, Won, 0, true, 0), 2 := Call(2, Won, 1, true, 0)];
  }

  /** The last event hands call `c` the file behind the queue's target. */
  predicate HandsBackCurrent(run: seq<Event>, c: nat) {
    && run != [] && run[|run| - 1] == Commit(c) && Valid(run[..|run| - 1])
    && After(run[..|run| - 1]).target == After(run[..|run| - 1]).dispatch
  }

  /** An applied call wakes up and records its target. */
  lemma WakeAndCommit(before: seq<Event>, c: nat) returns (run: seq<Event>)
    requires Valid(before) && !Disturbed(before) && In(After(before), c, Waiting)
    requires After(before).calls[c].applied && After(before).calls[c].signals > 0
    ensures Valid(run) && !Disturbed(run)
    ensures var s := After(before); var r := s.calls[c];
            After(run) == s.(target := r.newTarget,
                             calls := s.calls[c := r.(phase := Won, signals := r.signals - 1)])
    ensures After(before).target == After(before).dispatch ==> HandsBackCurrent(run, c)
  {
    var s := After(before);
    var r := s.calls[c];
    var r1 := r.(phase := Committing, signals := r.signals - 1);
    WakeStep(s, c);
    hide Step, Valid, After, Disturbed;
    Next(before, Wake(c), s.(calls := s.calls[c := r1]));
    var woken := before + [Wake(c)];
    Committed(woken, c, s.calls, r1);
    run := woken + [Commit(c)];
    assert run[..|run| - 1] == woken;
  }

  lemma WakeStep(s: State, c: nat)
    requires In(s, c, Waiting) && s.calls[c].applied && s.calls[c].signals > 0
    ensures Step(s, Wake(c)).Some? && !Interferes(s, Wake(c))
    ensures var r := s.calls[c];
            Step(s, Wake(c)).value == s.(calls := s.calls[c := r.(phase := Committing, signals := r.signals - 1)])
  {
  }

  lemma Committed(before: seq<Event>, c: nat, calls: map<nat, Call>, r: Call)
    requires Valid(before) && !Disturbed(before) && r.phase.Committing?
    requires After(before).calls == calls[c := r]
    ensures var run := before + [Commit(c)];
            && Valid(run) && !Disturbed(run)
            && After(run) == After(before).(target := r.newTarget, calls := calls[c := r.(phase := Won)])
  {
    hide Step;
    CommitStep(After(before), c, calls, r);
    Next(before, Commit(c), After(before).(target := r.newTarget, calls := calls[c := r.(phase := Won)]));
  }

  lemma CommitStep(s: State, c: nat, calls: map<nat, Call>, r: Call)
    requires s.calls == calls[c := r] && r.phase.Committing?
    ensures Step(s, Commit(c)).Some? && !Interferes(s, Commit(c))
    ensures Step(s, Commit(c)).value.calls == calls[c := r.(phase := Won)]
    ensures Step(s, Commit(c)).value.(calls := map[]) == s.(target := r.newTarget, calls := map[])
  {
    var won := r.(phase := Won);
    assert s.calls[c := won] == calls[c := won];
  }

  /** A retraction between the queue thread's load and its clear: the call returns -1 and
      its target is installed all the same. */
  lemma RetractionRace() returns (run: seq<Event>)
    ensures Valid(run) && In(After(run), 1, Lost) && After(run).dispatch == 1
  {
    run := LoadedRetracted();
    var s4 := After(run).(dispatch := 1, queue := Installed(1), calls := map[1 := Call(1, Lost, 0, true, 0)]);
    Next(run, Install, s4);
    run := run + [Install];
  }

  lemma LoadedRetracted() returns (run: seq<Event>)
    ensures Valid(run)
    ensures After(run) == State(0, 0, map[], 0, None, Loaded(1), false, map[1 := Call(1, Lost, 0, false, 0)])
  {
    run := OnePosted();
    var s1 := After(run).(queue := Loaded(1));
    Next(run, Load, s1);
    TimesOut(run + [Load]);
    run := run + [Load] + [Timeout(1)] + [Retract(1)];
  }

  lemma TimesOut(before: seq<Event>)
    requires Valid(before)
    requires After(before) == State(0, 0, map[], 0, Some(1), Loaded(1), false, map[1 := Call(1, Waiting, 0, false, 0)])
    ensures var run := before + [Timeout(1)] + [Retract(1)];
            && Valid(run)
            && After(run) == State(0, 0, map[], 0, None, Loaded(1), false, map[1 := Call(1, Lost, 0, false, 0)])
  {
    var s2 := After(before).(calls := map[1 := Call(1, Retracting, 0, false, 0)]);
    Next(before, Timeout(1), s2);
    Next(before + [Timeout(1)], Retract(1), s2.(pending := None, calls := map[1 := Call(1, Lost, 0, false, 0)]));
  }
}
