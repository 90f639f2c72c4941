/** What a call of `swap_image` returns and why, and that nothing keeps it from returning: every
call can return by itself, one that nobody interferes with can succeed as long as the queue
runs, and I/O goes on while a swap is pending.
 */
module HotSwapOutcome {
  import opened Runs
  import opened HotSwap

  // ----- why a call fails

  /** The reasons for -1: the queue had exited when the call entered; another call's request was
      pending when it posted its own; it took its own request back; its second wait ended
      without the swap. */
  predicate Fails(s: State, e: Event, c: nat) {
    match e
    case Enter(d, _) => d == c && s.exited
    case Post(d) => d == c && s.pending.Some? && s.pending.value != c
    case Retract(d) => d == c && s.pending == Some(c)
    case TimeoutMore(d) => d == c
    case _ => false
  }

  ghost predicate FailsAt(run: seq<Event>, k: nat, c: nat) {
    k < |run| && Valid(run[..k]) && Fails(After(run[..k]), run[k], c)
  }

  /** Nobody is signalled without being applied. */
  predicate SignalInv(s: State) {
    forall c | c in s.calls && s.calls[c].signals > 0 :: s.calls[c].applied
  }

  lemma StepKeepsSignals(s: State, e: Event)
    requires SignalInv(s) && QueueInv(s) && Step(s, e).Some?
    ensures SignalInv(Step(s, e).value)
  {
  }

  lemma {:induction false} RunKeepsSignals(run: seq<Event>)
    requires Valid(run)
    ensures SignalInv(After(run))
  {
    if run != [] {
      hide Step, SignalInv, QueueInv;
      var p := run[..|run| - 1];
      RunKeepsSignals(p);
      RunKeepsQueue(p);
      StepKeepsSignals(After(p), run[|run| - 1]);
    }
  }

  lemma StepFails(s: State, e: Event, c: nat)
    requires QueueInv(s) && SignalInv(s) && Step(s, e).Some?
    ensures In(Step(s, e).value, c, Lost) <==> In(s, c, Lost) || Fails(s, e, c)
  {
  }

  /** Main theorem. In every run, disturbed or not, a call has returned -1 if and only if one of
      the four reasons came up; in particular I/O in flight is none. */
  lemma {:induction false} LostExactly(run: seq<Event>, c: nat)
    requires Valid(run)
    ensures In(After(run), c, Lost) <==> exists k: nat :: FailsAt(run, k, c)
  {
    if run != [] {
      var n := |run| - 1;
      var p := run[..n];
      LostExactly(p, c);
      RunKeepsQueue(p);
      RunKeepsSignals(p);
      StepFails(After(p), run[n], c);
      hide Step, Fails, SignalInv, QueueInv;
      forall k: nat | k < n ensures FailsAt(p, k, c) <==> FailsAt(run, k, c) {
        assert p[..k] == run[..k];
      }
      assert FailsAt(run, n, c) <==> Fails(After(p), run[n], c);
    }
  }

  lemma StepTimesOut(s: State, e: Event, c: nat)
    requires SignalInv(s) && Step(s, e).Some? && e != Timeout(c)
    requires In(Step(s, e).value, c, Retracting) || In(Step(s, e).value, c, WaitingMore)
    ensures In(s, c, Retracting) || In(s, c, WaitingMore)
  {
  }

  /** A call takes its request back or waits again only after its wait has timed out. */
  lemma {:induction false} TimedOutFirst(run: seq<Event>, c: nat)
    requires Valid(run) && (In(After(run), c, Retracting) || In(After(run), c, WaitingMore))
    ensures Timeout(c) in run
  {
    var n := |run| - 1;
    if run[n] != Timeout(c) {
      RunKeepsSignals(run[..n]);
      StepTimesOut(After(run[..n]), run[n], c);
      hide Step;
      TimedOutFirst(run[..n], c);
    }
  }

  // ----- a call returns by itself

  lemma Goes(run: seq<Event>, e: Event)
    requires Valid(run) && Step(After(run), e).Some?
    ensures Valid(run + [e]) && After(run + [e]) == Step(After(run), e).value
    ensures Disturbed(run + [e]) <==> Disturbed(run) || Interferes(After(run), e)
  {
    ExecAppend(Step, Init(), run, e);
    assert (run + [e])[..|run|] == run;
  }

  lemma Regrouped(run: seq<Event>, a: seq<Event>, b: seq<Event>)
    ensures run + (a + b) == run + a + b
  {
  }

  predicate OwnEvent(e: Event, c: nat) {
    OfCaller(e) && !e.Enter? && e.c == c
  }

  function Ahead(p: Phase): nat {
    match p
    case Posting => 5
    case Waiting => 4
    case Retracting => 3
    case WaitingMore => 2
    case Committing => 1
    case _ => 0
  }

  /** The call goes on without waiting for anybody. */
  lemma OneCloser(s: State, c: nat) returns (e: Event)
    requires c in s.calls && Active(s.calls[c].phase)
    ensures OwnEvent(e, c) && Step(s, e).Some?
    ensures c in Step(s, e).value.calls && Ahead(Step(s, e).value.calls[c].phase) < Ahead(s.calls[c].phase)
  {
    var r := s.calls[c];
    e := match r.phase
      case Posting => Post(c)
      case Waiting => Timeout(c)
      case Retracting => Retract(c)
      case WaitingMore => if r.signals > 0 then WakeMore(c) else TimeoutMore(c)
      case _ => Commit(c);
  }

  /** Whatever the queue thread and the other calls are doing, a call returns after at most five
      more steps, all its own: the waits are bounded. */
  lemma EveryCallReturns(run: seq<Event>, c: nat) returns (ext: seq<Event>)
    requires Valid(run) && c in After(run).calls
    ensures Valid(run + ext) && (In(After(run + ext), c, Won) || In(After(run + ext), c, Lost))
    ensures |ext| <= 5 && forall e | e in ext :: OwnEvent(e, c)
  {
    ext := ReturnsWithin(run, c);
  }

  lemma {:induction false} ReturnsWithin(run: seq<Event>, c: nat) returns (ext: seq<Event>)
    requires Valid(run) && c in After(run).calls
    ensures Valid(run + ext) && (In(After(run + ext), c, Won) || In(After(run + ext), c, Lost))
    ensures |ext| <= Ahead(After(run).calls[c].phase) && forall e | e in ext :: OwnEvent(e, c)
    decreases Ahead(After(run).calls[c].phase)
  {
    hide Step, OwnEvent;
    if !Active(After(run).calls[c].phase) {
      ext := [];
      assert run + ext == run;
    } else {
      hide Valid, After, Ahead;
      var e := OneCloser(After(run), c);
      Goes(run, e);
      var rest := ReturnsWithin(run + [e], c);
      ext := [e] + rest;
      assert run + ext == run + [e] + rest;
    }
  }

  /** Any call can be made at any time, and goes on to post its request exactly when the queue
      has not exited. */
  lemma AnyCallEnters(run: seq<Event>, c: nat, t: nat)
    requires Valid(run) && c !in After(run).calls && FreshTarget(After(run), t)
    ensures Valid(run + [Enter(c, t)])
    ensures In(After(run + [Enter(c, t)]), c, if After(run).exited then Lost else Posting)
  {
    Goes(run, Enter(c, t));
  }

  // ----- a call can succeed

  /** I/O goes on as before while the queue thread polls, swap pending or not. */
  lemma AnyIoServed(run: seq<Event>, i: nat)
    requires Valid(run) && After(run).queue.Polling? && !After(run).exited && i !in After(run).io
    ensures var ext := [Accept(i), Begin(i), Finish(i)];
            && Valid(run + ext) && i in After(run + ext).io
            && After(run + ext).io[i] == Finished(After(run).dispatch)
  {
    Goes(run, Accept(i));
    Goes(run + [Accept(i)], Begin(i));
    Goes(run + [Accept(i)] + [Begin(i)], Finish(i));
    assert run + [Accept(i), Begin(i), Finish(i)] == run + [Accept(i)] + [Begin(i)] + [Finish(i)];
  }

  predicate SamePhases(s: State, t: State) {
    && t.calls.Keys == s.calls.Keys && t.exited == s.exited
    && forall c | c in s.calls :: t.calls[c].phase == s.calls[c].phase
  }

  predicate OfDevice(e: Event) {
    OfQueue(e) || e.Begin? || e.Finish?
  }

  predicate ByDevice(ext: seq<Event>) {
    forall e | e in ext :: OfDevice(e)
  }

  lemma ByDeviceJoin(a: seq<Event>, b: seq<Event>)
    requires ByDevice(a) && ByDevice(b)
    ensures ByDevice(a + b)
  {
    hide OfDevice;
  }

  predicate OfSwap(e: Event, c: nat) {
    OfDevice(e) || OwnEvent(e, c)
  }

  predicate BySwap(ext: seq<Event>, c: nat) {
    forall e | e in ext :: OfSwap(e, c)
  }

  lemma BySwapJoin(a: seq<Event>, b: seq<Event>, c: nat)
    requires BySwap(a, c) && BySwap(b, c)
    ensures BySwap(a + b, c)
  {
    hide OfSwap;
  }

  lemma DeviceIsSwap(a: seq<Event>, c: nat)
    requires ByDevice(a)
    ensures BySwap(a, c)
  {
    hide OfDevice;
  }

  /** An outstanding I/O completes, and nothing else happens. */
  lemma IoCompletes(run: seq<Event>, i: nat) returns (ext: seq<Event>)
    requires Valid(run) && After(run).queue.Polling? && i in After(run).io && !After(run).io[i].Finished?
    ensures Valid(run + ext) && (Disturbed(run + ext) <==> Disturbed(run)) && ByDevice(ext)
    ensures var s, t := After(run), After(run + ext);
            && t == s.(io := t.io, inflight := s.inflight - 1) && SamePhases(s, t)
            && |Unfinished(t.io)| == |Unfinished(s.io)| - 1
  {
    var s := After(run);
    ext := [];
    assert run + ext == run;
    if s.io[i].Accepted? {
      Goes(run, Begin(i));
      IoMoves(s.io, i, Running(s.dispatch));
      ext := [Begin(i)];
    }
    var m := After(run + ext);
    assert m.io[i].Running? && |Unfinished(m.io)| == |Unfinished(s.io)|;
    Goes(run + ext, Finish(i));
    IoMoves(m.io, i, Finished(m.io[i].target));
    assert run + (ext + [Finish(i)]) == run + ext + [Finish(i)];
    ext := ext + [Finish(i)];
  }

  /** Steps of the queue thread until it polls with nothing pending. */
  function QueueLeft(s: State): nat {
    match s.queue
    case Polling => if s.pending.Some? then 4 else 0
    case Loaded(_) => 3
    case Installed(_) => 2
    case Cleared(_) => if s.pending.Some? then 5 else 1
  }

  lemma QueueCloser(s: State) returns (e: Event)
    requires CallsInv(s) && !s.exited && QueueLeft(s) > 0 && s.inflight == 0
    ensures OfQueue(e) && Step(s, e).Some? && !Interferes(s, e)
    ensures var t := Step(s, e).value;
            SamePhases(s, t) && t.exited == s.exited && t.io == s.io && QueueLeft(t) < QueueLeft(s)
  {
    e := match s.queue
      case Polling => Load
      case Loaded(_) => Install
      case Installed(_) => Clear
      case Cleared(_) => Signal;
  }

  lemma SameAsItself(s: State)
    ensures SamePhases(s, s)
  {
  }

  lemma SamePhasesChain(s: State, t: State, u: State)
    requires SamePhases(s, t) && SamePhases(t, u)
    ensures SamePhases(s, u)
  {
  }

  predicate Settled(s: State) {
    s.queue.Polling? && s.pending.None? && s.inflight == 0
  }

  /** The device finishes its I/O and applies what is pending, while the calls wait. */
  lemma {:induction false} Settles(run: seq<Event>) returns (ext: seq<Event>)
    requires Valid(run) && !Disturbed(run) && !After(run).exited
    ensures Valid(run + ext) && !Disturbed(run + ext) && ByDevice(ext)
    ensures Settled(After(run + ext)) && SamePhases(After(run), After(run + ext))
    decreases |Unfinished(After(run).io)|, QueueLeft(After(run))
  {
    hide Step, Valid, After, Disturbed, CallsInv, Interferes, SamePhases, ByDevice;
    var s := After(run);
    ext := SettlesCloser(run);
    if ext == [] {
      assert run + ext == run;
      SameAsItself(s);
    } else {
      var rest := Settles(run + ext);
      SamePhasesChain(s, After(run + ext), After(run + ext + rest));
      Regrouped(run, ext, rest);
      ByDeviceJoin(ext, rest);
      ext := ext + rest;
    }
  }

  predicate Closer(s: State, t: State) {
    && SamePhases(s, t) && t.exited == s.exited
    && (|Unfinished(t.io)| < |Unfinished(s.io)| || (t.io == s.io && QueueLeft(t) < QueueLeft(s)))
  }

  lemma SettlesCloser(run: seq<Event>) returns (ext: seq<Event>)
    requires Valid(run) && !Disturbed(run) && !After(run).exited
    ensures Valid(run + ext) && !Disturbed(run + ext) && ByDevice(ext)
    ensures if ext == [] then Settled(After(run)) else Closer(After(run), After(run + ext))
  {
    var s := After(run);
    RunKeepsIo(run);
    hide Step, Valid, After, Disturbed, Closer, ByDevice;
    if s.inflight > 0 {
      var i := SomeUnfinished(s);
      ext := IoCloser(run, i);
    } else if QueueLeft(s) > 0 {
      ext := QueueCloserRun(run);
    } else {
      ext := [];
      assert run + ext == run;
      assert ByDevice([]) by { ByNobody(); }
    }
  }

  lemma ByNobody()
    ensures ByDevice([])
  {
  }

  lemma SomeUnfinished(s: State) returns (i: nat)
    requires IoInv(s) && s.inflight > 0
    ensures s.queue.Polling? && i in s.io && !s.io[i].Finished?
  {
    i :| i in Unfinished(s.io);
  }

  lemma IoCloser(run: seq<Event>, i: nat) returns (ext: seq<Event>)
    requires Valid(run) && !Disturbed(run) && After(run).queue.Polling?
    requires i in After(run).io && !After(run).io[i].Finished?
    ensures ext != [] && Valid(run + ext) && !Disturbed(run + ext) && ByDevice(ext)
    ensures Closer(After(run), After(run + ext))
  {
    hide Step, Valid, After, Disturbed, SamePhases, QueueLeft, Unfinished, ByDevice;
    ext := IoCompletes(run, i);
    assert ext != [] by { assert run + [] == run; }
  }

  lemma QueueCloserRun(run: seq<Event>) returns (ext: seq<Event>)
    requires Valid(run) && !Disturbed(run) && !After(run).exited
    requires After(run).inflight == 0 && QueueLeft(After(run)) > 0
    ensures ext != [] && Valid(run + ext) && !Disturbed(run + ext) && ByDevice(ext)
    ensures Closer(After(run), After(run + ext))
  {
    hide Step, Valid, After, Disturbed, CallsInv, Interferes, SamePhases, QueueLeft, Unfinished;
    UndisturbedKeepsCalls(run);
    var e := QueueCloser(After(run));
    Goes(run, e);
    ext := [e];
  }

  /** The call was applied and is on its way to record it. */
  predicate Succeeding(s: State, c: nat) {
    && c in s.calls && s.pending != Some(c) && Active(s.calls[c].phase) && !s.calls[c].phase.Posting?
    && s.calls[c].applied && (Pausing(s.calls[c].phase) ==> s.calls[c].signals > 0)
  }

  lemma SettledSucceeds(s: State, c: nat)
    requires CallsInv(s) && Settled(s) && c in s.calls && Active(s.calls[c].phase) && !s.calls[c].phase.Posting?
    ensures Succeeding(s, c)
  {
    CallsTell(s, c);
  }

  lemma SuccessCloser(s: State, c: nat) returns (e: Event)
    requires Succeeding(s, c)
    ensures OwnEvent(e, c) && Step(s, e).Some? && !Interferes(s, e)
    ensures var t := Step(s, e).value;
            && c in t.calls && t.calls[c].newTarget == s.calls[c].newTarget
            && Ahead(t.calls[c].phase) < Ahead(s.calls[c].phase)
            && (Succeeding(t, c) || (In(t, c, Won) && t.target == t.calls[c].newTarget))
  {
    e := match s.calls[c].phase
      case Waiting => Wake(c)
      case Retracting => Retract(c)
      case WaitingMore => WakeMore(c)
      case _ => Commit(c);
  }

  lemma {:induction false} Succeeds(run: seq<Event>, c: nat) returns (ext: seq<Event>)
    requires Valid(run) && !Disturbed(run) && Succeeding(After(run), c)
    ensures Valid(run + ext) && !Disturbed(run + ext) && BySwap(ext, c)
    ensures In(After(run + ext), c, Won) && After(run + ext).target == After(run + ext).calls[c].newTarget
    decreases Ahead(After(run).calls[c].phase)
  {
    var s := After(run);
    assert c in s.calls;
    hide Step, Valid, After, Disturbed, Succeeding, Interferes, OwnEvent, Ahead;
    var e := SuccessCloser(s, c);
    Goes(run, e);
    ext := [e];
    assert BySwap(ext, c);
    hide BySwap;
    if Succeeding(After(run + ext), c) {
      var rest := Succeeds(run + ext, c);
      Regrouped(run, ext, rest);
      BySwapJoin(ext, rest, c);
      ext := ext + rest;
    }
  }

  /** Main theorem. In every undisturbed run, as long as the queue has not exited, a call that has
      not returned can still succeed, whatever I/O is in flight and whatever is pending: the
      device finishes its I/O and the swaps before it, and the call returns 0 with its target
      recorded. */
  lemma SwapGoesThrough(run: seq<Event>, c: nat) returns (ext: seq<Event>)
    requires Valid(run) && !Disturbed(run) && !After(run).exited
    requires c in After(run).calls && Active(After(run).calls[c].phase)
    ensures Valid(run + ext) && !Disturbed(run + ext) && BySwap(ext, c)
    ensures In(After(run + ext), c, Won) && After(run + ext).target == After(run + ext).calls[c].newTarget
  {
    hide Step, Valid, After, Disturbed, CallsInv, BySwap, ByDevice;
    ext := Settles(run);
    DeviceIsSwap(ext, c);
    if In(After(run), c, Posting) {
      var posted := PostsAndSettles(run + ext, c);
      Regrouped(run, ext, posted);
      BySwapJoin(ext, posted, c);
      ext := ext + posted;
    }
    UndisturbedKeepsCalls(run + ext);
    SettledSucceeds(After(run + ext), c);
    var rest := Succeeds(run + ext, c);
    Regrouped(run, ext, rest);
    BySwapJoin(ext, rest, c);
    ext := ext + rest;
  }

  /** A request posted when nothing is pending is waited for, whatever I/O is in flight. */
  lemma Posts(run: seq<Event>, c: nat)
    requires Valid(run) && In(After(run), c, Posting) && After(run).pending.None?
    ensures Valid(run + [Post(c)]) && In(After(run + [Post(c)]), c, Waiting)
    ensures After(run + [Post(c)]).pending == Some(c) && After(run + [Post(c)]).exited == After(run).exited
    ensures Disturbed(run + [Post(c)]) <==> Disturbed(run)
  {
    Goes(run, Post(c));
  }

  lemma PostsAndSettles(run: seq<Event>, c: nat) returns (ext: seq<Event>)
    requires Valid(run) && !Disturbed(run) && !After(run).exited
    requires In(After(run), c, Posting) && After(run).pending.None?
    ensures Valid(run + ext) && !Disturbed(run + ext) && BySwap(ext, c)
    ensures Settled(After(run + ext)) && In(After(run + ext), c, Waiting)
  {
    Posts(run, c);
    hide Step, Valid, After, Disturbed, ByDevice;
    var rest := Settles(run + [Post(c)]);
    DeviceIsSwap(rest, c);
    BySwapJoin([Post(c)], rest, c);
    Regrouped(run, [Post(c)], rest);
    ext := [Post(c)] + rest;
    hide BySwap;
  }
}
