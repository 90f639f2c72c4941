/** Completion of TCMU commands: the response ring, the coalesced uio
notification and the drain before a device is freed.

Any number of command handlers, on any number of vCPUs, run `complete_command`
at the same time. Each atomic access is one event, and a run is any interleaving
of the events of all handlers, of the intake loop and of the destructor.
 */
module TcmuCompletion {
  import opened Collections
  import opened Runs

  /** Where a handler stands. `Published` holds the ring lock; `Notifying`,
      `Sent` and `Collapsing` are the notify loop; `Finishing` has one access left. */
  datatype Pc = Fetched | Published | Notifying | Sent | Collapsing | Finishing | Done

  datatype State = State(
    pc: map<nat, Pc>,        // every command ever fetched, by command number
    lock: Option<nat>,       // holder of ring_lock
    pending: nat,            // pending_wakeups
    inflight: int,
    stopped: bool,           // the event loop is gone: no more intake
    freed: bool)             // ~TCMUDevLoop returned and the device was deleted

  datatype Event =
    | Fetch(h: nat)          // get_next_command; inflight += 1
    | Publish(h: nat)        // lock; tcmulib_command_complete
    | Count(h: nat)          // pending_wakeups.fetch_add(1); unlock
    | Send(h: nat)           // tcmulib_processing_complete
    | Cas(h: nat)            // compare_exchange(1 -> 0)
    | Store(h: nat)          // pending_wakeups.store(1)
    | Drop(h: nat)           // inflight.fetch_sub(1)
    | StopIntake             // loop->stop(); delete loop
    | Free                   // inflight seen 0, device deleted

  function Init(): State {
    State(map[], None, 0, 0, false, false)
  }

  predicate At(s: State, h: nat, p: Pc) {
    h in s.pc && s.pc[h] == p
  }

  /** One event. No handler event asks whether the device is still there. */
  function Step(s: State, e: Event): Option<State> {
    match e
    case Fetch(h) =>
      if h in s.pc || s.stopped then None
      else Some(s.(pc := s.pc[h := Fetched], inflight := s.inflight + 1))
    case Publish(h) =>
      if !At(s, h, Fetched) || s.lock.Some? then None
      else Some(s.(pc := s.pc[h := Published], lock := Some(h)))
    case Count(h) =>
      if !At(s, h, Published) then None
      else Some(s.(pc := s.pc[h := if s.pending == 0 then Notifying else Finishing],
                   pending := s.pending + 1, lock := None))
    case Send(h) =>
      if !At(s, h, Notifying) then None else Some(s.(pc := s.pc[h := Sent]))
    case Cas(h) =>
      if !At(s, h, Sent) then None
      else if s.pending == 1 then Some(s.(pc := s.pc[h := Finishing], pending := 0))
      else Some(s.(pc := s.pc[h := Collapsing]))
    case Store(h) =>
      if !At(s, h, Collapsing) then None
      else Some(s.(pc := s.pc[h := Notifying], pending := 1))
    case Drop(h) =>
      if !At(s, h, Finishing) then None
      else Some(s.(pc := s.pc[h := Done], inflight := s.inflight - 1))
    case StopIntake =>
      if s.stopped then None else Some(s.(stopped := true))
    case Free =>
      if !s.stopped || s.freed || s.inflight != 0 then None else Some(s.(freed := true))
  }

  predicate OfHandler(e: Event) {
    !e.StopIntake? && !e.Free?
  }

  predicate Valid(run: seq<Event>) {
    IsRun(Step, Init(), run)
  }

  function After(run: seq<Event>): State
    requires Valid(run)
  {
    Exec(Step, Init(), run).value
  }

  predicate InLoop(p: Pc) {
    p.Notifying? || p.Sent? || p.Collapsing?
  }

  /** The handlers inside the notify loop. */
  function Notifiers(s: State): set<nat> {
    Looping(s.pc)
  }

  function Looping(pc: map<nat, Pc>): set<nat> {
    set h | h in pc && InLoop(pc[h])
  }

  /** The commands fetched and not yet finished with the device. */
  function Live(s: State): set<nat> {
    Unfinished(s.pc)
  }

  function Unfinished(pc: map<nat, Pc>): set<nat> {
    set h | h in pc && pc[h] != Done
  }

  /** One notifier while wakeups are pending, none otherwise. */
  ghost predicate NotifierInv(s: State) {
    && (s.pending == 0 ==> Notifiers(s) == {})
    && (s.pending > 0 ==> exists n :: Notifiers(s) == {n})
    && (s.pending < 2 ==> forall h | h in s.pc :: !s.pc[h].Collapsing?)
  }

  predicate LockInv(s: State) {
    && (forall h | h in s.pc :: s.pc[h].Published? <==> s.lock == Some(h))
    && (s.lock.Some? ==> s.lock.value in s.pc)
  }

  predicate CountInv(s: State) {
    && s.inflight == |Live(s)|
    && (s.freed ==> s.stopped && s.inflight == 0)
  }

  /** What every event keeps. */
  ghost predicate Inv(s: State) {
    NotifierInv(s) && LockInv(s) && CountInv(s)
  }

  /** What moving one handler does to the sets the invariant speaks of. */
  lemma Move(pc: map<nat, Pc>, h: nat, p: Pc)
    ensures Looping(pc[h := p]) == if InLoop(p) then Looping(pc) + {h} else Looping(pc) - {h}
    ensures Unfinished(pc[h := p]) == if p == Done then Unfinished(pc) - {h} else Unfinished(pc) + {h}
  {
    var q := pc[h := p];
    assert forall x :: x in Looping(q) <==> (if x == h then InLoop(p) else x in Looping(pc));
    assert forall x :: x in Unfinished(q) <==> (if x == h then p != Done else x in Unfinished(pc));
  }

  lemma StepMoves(s: State, e: Event)
    requires Step(s, e).Some? && OfHandler(e)
    ensures var t := Step(s, e).value;
            && e.h in t.pc && t.pc == s.pc[e.h := t.pc[e.h]]
            && Notifiers(t) == (if InLoop(t.pc[e.h]) then Notifiers(s) + {e.h} else Notifiers(s) - {e.h})
            && Live(t) == (if t.pc[e.h] == Done then Live(s) - {e.h} else Live(s) + {e.h})
  {
    var t := Step(s, e).value;
    Move(s.pc, e.h, t.pc[e.h]);
  }

  lemma StepKeepsNotifier(s: State, e: Event)
    requires NotifierInv(s) && Step(s, e).Some?
    ensures NotifierInv(Step(s, e).value)
  {
    var t := Step(s, e).value;
    if OfHandler(e) {
      StepMoves(s, e);
      assert e.h in Notifiers(s) <==> e.h in s.pc && InLoop(s.pc[e.h]);
      if s.pending > 0 {
        var n :| Notifiers(s) == {n};
        assert t.pending > 0 ==> Notifiers(t) == {n};
      } else {
        assert t.pending > 0 ==> Notifiers(t) == {e.h};
      }
      forall h | h in t.pc && t.pc[h].Collapsing? ensures t.pending >= 2 {
        assert h in Notifiers(t);
      }
    }
  }

  lemma StepKeepsCount(s: State, e: Event)
    requires CountInv(s) && Step(s, e).Some?
    ensures CountInv(Step(s, e).value)
  {
    if OfHandler(e) {
      StepMoves(s, e);
      StepCounts(s, e);
      hide Step, Unfinished;
      LiveMoves(s.pc, e.h, Step(s, e).value.pc[e.h]);
    }
  }

  /** How an event changes the counter, from where its handler stands. */
  lemma StepCounts(s: State, e: Event)
    requires Step(s, e).Some? && OfHandler(e)
    ensures var t := Step(s, e).value;
            && e.h in t.pc
            && t.inflight - s.inflight == (if t.pc[e.h] == Done then 0 else 1)
                                          - (if e.h in s.pc && s.pc[e.h] != Done then 1 else 0)
            && t.freed == s.freed && t.stopped == s.stopped && (e.Fetch? ==> !s.stopped)
            && (!e.Fetch? ==> e.h in s.pc && s.pc[e.h] != Done)
  {
  }

  lemma LiveMoves(pc: map<nat, Pc>, h: nat, p: Pc)
    ensures |Unfinished(pc[h := p])| == |Unfinished(pc)| + (if p == Done then 0 else 1)
                                        - (if h in pc && pc[h] != Done then 1 else 0)
  {
    Move(pc, h, p);
    var before := Unfinished(pc);
    assert h in before <==> h in pc && pc[h] != Done;
    assert |before + {h}| == |before| + (if h in before then 0 else 1);
    assert |before - {h}| == |before| - (if h in before then 1 else 0);
  }

  lemma StepKeepsLock(s: State, e: Event)
    requires LockInv(s) && Step(s, e).Some?
    ensures LockInv(Step(s, e).value)
  {
  }

  lemma {:induction false} RunKeepsInv(run: seq<Event>)
    requires Valid(run)
    ensures Inv(After(run))
  {
    if run != [] {
      var p := run[..|run| - 1];
      var e := run[|run| - 1];
      RunKeepsInv(p);
      StepKeepsNotifier(After(p), e);
      StepKeepsCount(After(p), e);
      StepKeepsLock(After(p), e);
    }
  }

  /** In every reachable state exactly one handler is in the notify loop when
      `pending_wakeups` is positive, none when it is zero, never two; and `inflight`
      is the number of commands fetched and not finished. */
  lemma OneNotifier(run: seq<Event>)
    requires Valid(run)
    ensures var s := After(run);
            && |Notifiers(s)| == (if s.pending > 0 then 1 else 0)
            && s.inflight == |Live(s)|
  {
    RunKeepsInv(run);
  }

  // ----- no lost notification

  ghost predicate SendAfter(run: seq<Event>, i: nat) {
    exists j :: i < j < |run| && run[j].Send?
  }

  /** The notifier cannot leave the loop without one more `processing_complete`. */
  ghost predicate Owes(s: State) {
    exists n :: n in Notifiers(s) && (!s.pc[n].Sent? || s.pending >= 2)
  }

  ghost predicate Answered(run: seq<Event>, s: State, i: nat)
    requires i < |run|
  {
    run[i].Publish? ==>
      SendAfter(run, i) || At(s, run[i].h, Published) || Owes(s)
  }

  lemma SendAfterExtends(run: seq<Event>, e: Event, i: nat)
    ensures SendAfter(run, i) ==> SendAfter(run + [e], i)
  {
    if SendAfter(run, i) {
      var j :| i < j < |run| && run[j].Send?;
      assert (run + [e])[j].Send?;
    }
  }

  lemma StepKeepsAnswered(run: seq<Event>, s: State, e: Event, i: nat)
    requires Inv(s) && Step(s, e).Some?
    requires i < |run| && Answered(run, s, i)
    ensures Answered(run + [e], Step(s, e).value, i)
  {
    var t := Step(s, e).value;
    SendAfterExtends(run, e, i);
    if run[i].Publish? && !SendAfter(run, i) {
      if e.Send? {
        assert (run + [e])[|run|].Send?;
      } else if Owes(s) {
        var n :| n in Notifiers(s) && (!s.pc[n].Sent? || s.pending >= 2);
        assert Notifiers(s) == {n};
        if e.Count? || e.Cas? || e.Store? {
          if !e.Count? { assert e.h in Notifiers(s); }
        }
        assert n in Notifiers(t);
      } else if e == Count(run[i].h) {
        if s.pending == 0 {
          assert e.h in Notifiers(t);
        } else {
          var n :| Notifiers(s) == {n};
          assert n in Notifiers(s);
          assert n in Notifiers(t);
        }
      }
    }
  }

  lemma {:induction false} EveryResponseAnswered(run: seq<Event>, i: nat)
    requires Valid(run) && i < |run|
    ensures Answered(run, After(run), i)
  {
    var p := run[..|run| - 1];
    var e := run[|run| - 1];
    assert run == p + [e];
    RunKeepsInv(p);
    if i < |p| {
      EveryResponseAnswered(p, i);
      StepKeepsAnswered(p, After(p), e, i);
    }
  }

  function Rank(p: Pc): nat {
    match p
    case Fetched => 0
    case Published => 1
    case Notifying => 2
    case Sent => 2
    case Collapsing => 2
    case Finishing => 3
    case Done => 4
  }

  /** How far a handler is when it has done the event. */
  function RankOf(e: Event): nat {
    match e
    case Publish(_) => 1
    case Count(_) => 2
    case Send(_) => 2
    case Cas(_) => 2
    case Store(_) => 2
    case Drop(_) => 4
    case _ => 0
  }

  /** A handler never goes back. */
  lemma StepRank(s: State, e: Event, h: nat)
    requires Step(s, e).Some?
    ensures var t := Step(s, e).value;
            && (h in s.pc ==> h in t.pc && Rank(t.pc[h]) >= Rank(s.pc[h]))
            && (OfHandler(e) && e.h == h ==> h in t.pc && Rank(t.pc[h]) >= RankOf(e))
  {
  }

  lemma {:induction false} RankReached(run: seq<Event>, i: nat)
    requires Valid(run) && i < |run| && OfHandler(run[i])
    ensures var s := After(run); run[i].h in s.pc && Rank(s.pc[run[i].h]) >= RankOf(run[i])
  {
    hide Step, Rank, RankOf;
    var p := run[..|run| - 1];
    StepRank(After(p), run[|run| - 1], run[i].h);
    if i < |run| - 1 {
      RankReached(p, i);
    }
  }

  /** Main theorem. Whenever a notifier leaves its loop (its compare-exchange at `k`
      found 1), every response counted before that moment has had a
      `processing_complete` after it was published, although the store of 1 discards
      counts. */
  lemma NoLostNotification(run: seq<Event>, i: nat, c: nat, k: nat)
    requires Valid(run)
    requires i < c < k < |run|
    requires run[i].Publish? && run[c] == Count(run[i].h)
    requires run[k].Cas? && Valid(run[..k]) && After(run[..k]).pending == 1
    ensures exists j :: i < j < k && run[j].Send?
  {
    var p := run[..k];
    var s := After(p);
    var n := run[k].h;
    StepAt(Step, Init(), run, k);
    EveryResponseAnswered(p, i);
    RankReached(p, c);
    RunKeepsInv(p);
    assert n in Notifiers(s);
    assert !Owes(s);
    assert SendAfter(p, i);
    var j :| i < j < |p| && p[j].Send?;
    assert run[j].Send?;
  }

  /** The same at rest: when `pending_wakeups` is zero nothing that was counted is
      still waiting for a notification. */
  lemma QuiescentMeansNotified(run: seq<Event>, i: nat)
    requires Valid(run) && i < |run|
    requires run[i].Publish? && After(run).pending == 0
    ensures SendAfter(run, i) || At(After(run), run[i].h, Published)
  {
    EveryResponseAnswered(run, i);
    RunKeepsInv(run);
  }

  // ----- the drain is safe

  /** How often an event happened in a run. */
  function Occurred(run: seq<Event>, e: Event): nat {
    if run == [] then 0
    else Occurred(run[..|run| - 1], e) + (if run[|run| - 1] == e then 1 else 0)
  }

  /** The events of a command so far, told from where it stands. */
  predicate Tally(s: State, h: nat, fetches: nat, publishes: nat, counts: nat, drops: nat) {
    && fetches == (if h in s.pc then 1 else 0)
    && publishes == (if h in s.pc && Rank(s.pc[h]) >= 1 then 1 else 0)
    && counts == (if h in s.pc && Rank(s.pc[h]) >= 2 then 1 else 0)
    && drops == (if At(s, h, Done) then 1 else 0)
  }

  lemma StepTally(s: State, e: Event, h: nat, f: nat, p: nat, c: nat, d: nat)
    requires Step(s, e).Some? && Tally(s, h, f, p, c, d)
    ensures Tally(Step(s, e).value, h,
                  f + (if e == Fetch(h) then 1 else 0), p + (if e == Publish(h) then 1 else 0),
                  c + (if e == Count(h) then 1 else 0), d + (if e == Drop(h) then 1 else 0))
  {
  }

  lemma {:induction false} RunTally(run: seq<Event>, h: nat)
    requires Valid(run)
    ensures Tally(After(run), h, Occurred(run, Fetch(h)), Occurred(run, Publish(h)),
                  Occurred(run, Count(h)), Occurred(run, Drop(h)))
  {
    if run != [] {
      hide Step, Tally;
      var p := run[..|run| - 1];
      RunTally(p, h);
      StepTally(After(p), run[|run| - 1], h, Occurred(p, Fetch(h)), Occurred(p, Publish(h)),
                Occurred(p, Count(h)), Occurred(p, Drop(h)));
    }
  }

  lemma {:induction false} HappenedIsCounted(run: seq<Event>, e: Event)
    ensures e in run <==> Occurred(run, e) > 0
  {
    if run != [] {
      HappenedIsCounted(run[..|run| - 1], e);
      assert run == run[..|run| - 1] + [run[|run| - 1]];
    }
  }

  /** When the destructor frees the device: every command fetched was answered,
      counted and dropped exactly once, every response was notified after it was
      published, and no event of any handler can happen any more. */
  lemma FreeIsSafe(run: seq<Event>, k: nat)
    requires Valid(run) && k < |run| && run[k] == Free
    ensures k == |run| - 1
    ensures forall i | 0 <= i < k && run[i].Publish? :: exists j :: i < j < k && run[j].Send?
    ensures forall h | Fetch(h) in run ::
              Occurred(run, Publish(h)) == Occurred(run, Count(h)) == Occurred(run, Drop(h)) == 1
    ensures forall e :: Step(After(run), e).None?
  {
    StepAt(Step, Init(), run, k);
    var p := run[..k];
    var s := After(run[..k + 1]);
    RunKeepsInv(p);
    RunKeepsInv(run[..k + 1]);
    assert Live(s) == {};
    forall e ensures Step(s, e).None? {
      if OfHandler(e) && !e.Fetch? && e.h in s.pc {
        assert e.h !in Live(s);
      }
    }
    if k + 1 < |run| {
      StepAt(Step, Init(), run, k + 1);
      assert false;
    }
    assert run[..k + 1] == run;
    forall i | 0 <= i < k && run[i].Publish? ensures exists j :: i < j < k && run[j].Send? {
      EveryResponseAnswered(p, i);
      assert Live(After(p)) == {};
      RankReached(p, i);
      assert run[i].h !in Live(After(p));
      assert Notifiers(After(p)) <= Live(After(p));
      var j :| i < j < |p| && p[j].Send?;
      assert run[j].Send?;
    }
    forall h | Fetch(h) in run
      ensures Occurred(run, Publish(h)) == Occurred(run, Count(h)) == Occurred(run, Drop(h)) == 1
    {
      HappenedIsCounted(run, Fetch(h));
      RunTally(run, h);
      assert h !in Live(s);
    }
  }

  // ----- the drain ends

  function Weight(p: Pc): nat {
    match p
    case Fetched => 9
    case Published => 8
    case Notifying => 4
    case Sent => 3
    case Collapsing => 2
    case Finishing => 1
    case Done => 0
  }

  ghost function Total(pc: map<nat, Pc>): nat {
    if pc == map[] then 0
    else var h :| h in pc; Weight(pc[h]) + Total(pc - {h})
  }

  lemma {:induction false} TotalSplit(pc: map<nat, Pc>, h: nat)
    requires h in pc
    ensures Total(pc) == Weight(pc[h]) + Total(pc - {h})
    decreases |pc|
  {
    var x :| x in pc && Total(pc) == Weight(pc[x]) + Total(pc - {x});
    if x != h {
      TotalSplit(pc - {x}, h);
      TotalSplit(pc - {h}, x);
      assert pc - {x} - {h} == pc - {h} - {x};
    }
  }

  /** The work left in a state; every handler event uses some of it up. */
  ghost function Work(s: State): nat {
    Total(s.pc) + 3 * s.pending
  }

  /** Once intake has stopped every event strictly decreases the work left, except
      the final Free: the drain cannot go on for ever. */
  lemma DrainMeasureDecreases(s: State, e: Event)
    requires Inv(s) && s.stopped && Step(s, e).Some? && e != Free
    ensures Work(Step(s, e).value) < Work(s)
  {
    hide Total;
    var t := Step(s, e).value;
    var h := e.h;
    TotalSplit(s.pc, h);
    TotalSplit(t.pc, h);
    assert t.pc - {h} == s.pc - {h};
  }

  lemma UnfinishedWithout(pc: map<nat, Pc>, h: nat)
    requires h in pc
    ensures |Unfinished(pc)| == |Unfinished(pc - {h})| + (if pc[h] == Done then 0 else 1)
  {
    if pc[h] == Done {
      assert Unfinished(pc) == Unfinished(pc - {h});
    } else {
      assert Unfinished(pc) == Unfinished(pc - {h}) + {h};
    }
  }

  lemma {:induction false} WorkBound(pc: map<nat, Pc>)
    ensures Total(pc) <= 9 * |Unfinished(pc)|
    decreases |pc|
  {
    if pc != map[] {
      hide Total, Unfinished;
      var h :| h in pc;
      TotalSplit(pc, h);
      UnfinishedWithout(pc, h);
      WorkBound(pc - {h});
    }
  }

  /** After intake has stopped at `p`, a run has at most nine events for each command
      outstanding there, three for each wakeup pending, and the Free. */
  lemma {:induction false} DrainIsBounded(run: seq<Event>, p: nat)
    requires Valid(run) && p <= |run|
    requires Valid(run[..p]) && After(run[..p]).stopped
    ensures |run| - p <= 9 * |Live(After(run[..p]))| + 3 * After(run[..p]).pending + 1
  {
    var s := After(run[..p]);
    WorkBound(s.pc);
    DrainUsesWork(run, p);
  }

  lemma {:induction false} DrainUsesWork(run: seq<Event>, p: nat)
    requires Valid(run) && p <= |run|
    requires Valid(run[..p]) && After(run[..p]).stopped
    ensures var s := After(run);
            && s.stopped
            && (|run| - p) + Work(s) <= Work(After(run[..p])) + (if s.freed then 1 else 0)
  {
    if p == |run| {
      assert run[..p] == run;
    } else {
      var q := run[..|run| - 1];
      assert q[..p] == run[..p];
      RunKeepsInv(q);
      DrainUsesWork(q, p);
      if run[|run| - 1] != Free {
        DrainMeasureDecreases(After(q), run[|run| - 1]);
      }
    }
  }

  /** What a handler does next; the ring lock may make it wait. */
  function NextOf(s: State, h: nat): Event {
    if h !in s.pc then Fetch(h)
    else
      match s.pc[h]
      case Fetched => Publish(h)
      case Published => Count(h)
      case Notifying => Send(h)
      case Sent => Cas(h)
      case Collapsing => Store(h)
      case _ => Drop(h)
  }

  /** In service or not, a device never gets stuck: while a command is outstanding some handler
      can take a step, and when none is and intake has stopped, the destructor can. */
  lemma DrainProgress(run: seq<Event>)
    requires Valid(run) && !After(run).freed
    ensures Live(After(run)) != {} ==> exists e :: OfHandler(e) && !e.Fetch? && Step(After(run), e).Some?
    ensures Live(After(run)) == {} && After(run).stopped ==> Step(After(run), Free).Some?
  {
    var s := After(run);
    RunKeepsInv(run);
    if s.lock.Some? {
      assert Step(s, Count(s.lock.value)).Some?;
    } else if Live(s) != {} {
      var h :| h in Live(s);
      assert Step(s, NextOf(s, h)).Some?;
    }
  }

  // ----- every command is answered

  predicate WaitsForLock(s: State, h: nat) {
    At(s, h, Fetched) && s.lock.Some?
  }

  predicate OwnEvent(e: Event, h: nat) {
    OfHandler(e) && e.h == h && !e.Fetch?
  }

  /** The events a command needs from here when only the holder of the ring lock moves before
      it. */
  function Ahead(s: State, h: nat): nat
    requires h in s.pc
  {
    match s.pc[h]
    case Fetched => if s.pending == 0 && s.lock.None? then 5 else if s.lock.None? then 3 else 4
    case Published => if s.pending == 0 then 4 else 2
    case Notifying => if s.pending == 1 then 3 else 6
    case Sent => if s.pending == 1 then 2 else 5
    case Collapsing => 4
    case Finishing => 1
    case Done => 0
  }

  lemma AheadAtMost(s: State, h: nat)
    requires h in s.pc
    ensures Ahead(s, h) <= 6
  {
  }

  /** The lock holder leaves the critical section, otherwise the handler itself takes a step. */
  lemma OneCloser(s: State, h: nat) returns (e: Event)
    requires Inv(s) && h in Live(s)
    ensures OwnEvent(e, h) || (WaitsForLock(s, h) && e == Count(s.lock.value))
    ensures Step(s, e).Some? && h in Step(s, e).value.pc
    ensures Ahead(Step(s, e).value, h) == Ahead(s, h) - 1
    ensures OwnEvent(e, h) ==> !Step(s, e).value.pc[h].Fetched?
    ensures e.Count? ==> Step(s, e).value.lock.None?
  {
    e := if WaitsForLock(s, h) then Count(s.lock.value) else NextOf(s, h);
  }

  /** Main theorem. Whatever the other handlers are doing and whether or not intake goes on, a
      fetched command is answered and done after at most six more events, all its own but for
      the holder of the ring lock leaving the critical section. */
  lemma {:induction false} EveryCommandServed(run: seq<Event>, h: nat) returns (ext: seq<Event>)
    requires Valid(run) && h in After(run).pc
    ensures Valid(run + ext) && At(After(run + ext), h, Done)
    ensures |ext| == Ahead(After(run), h) <= 6
    ensures forall k | 0 <= k < |ext| ::
              || OwnEvent(ext[k], h)
              || (k == 0 && WaitsForLock(After(run), h) && ext[k] == Count(After(run).lock.value))
    decreases Ahead(After(run), h)
  {
    hide Step, Inv;
    var s := After(run);
    if s.pc[h] == Done {
      ext := [];
      assert run + ext == run;
    } else {
      hide Ahead;
      RunKeepsInv(run);
      var e := OneCloser(s, h);
      ExecAppend(Step, Init(), run, e);
      AheadAtMost(s, h);
      var rest := EveryCommandServed(run + [e], h);
      ext := [e] + rest;
      assert run + ext == run + [e] + rest;
    }
  }

  lemma TakeOne(run: seq<Event>, h: nat) returns (ext: seq<Event>)
    requires Valid(run) && h !in After(run).pc
    requires !After(run).stopped && After(run).lock.None? && After(run).pending > 0
    ensures ext == [Fetch(h), Publish(h), Count(h)] && Valid(run + ext)
    ensures var s := After(run);
            After(run + ext) == s.(pc := s.pc[h := Finishing], pending := s.pending + 1, inflight := s.inflight + 1)
  {
    var s := After(run);
    var s1 := s.(pc := s.pc[h := Fetched], inflight := s.inflight + 1);
    var s2 := s1.(pc := s1.pc[h := Published], lock := Some(h));
    ExecAppend(Step, Init(), run, Fetch(h));
    ExecAppend(Step, Init(), run + [Fetch(h)], Publish(h));
    ExecAppend(Step, Init(), run + [Fetch(h)] + [Publish(h)], Count(h));
    ext := [Fetch(h), Publish(h), Count(h)];
    assert run + ext == run + [Fetch(h)] + [Publish(h)] + [Count(h)];
    assert s2.pc[h := Finishing] == s.pc[h := Finishing];
  }

  /** While a notifier is in its loop, any number of new commands is fetched, published and
      counted. */
  lemma {:induction false} Burst(run: seq<Event>, hs: seq<nat>) returns (ext: seq<Event>)
    requires Valid(run) && Distinct(hs) && forall h | h in hs :: h !in After(run).pc
    requires !After(run).stopped && After(run).lock.None? && After(run).pending > 0
    ensures Valid(run + ext) && (forall e | e in ext :: OfHandler(e) && e.h in hs)
    ensures var s, t := After(run), After(run + ext);
            && t.pending == s.pending + |hs| && t.lock.None? && !t.stopped
            && (forall h | h in hs :: At(t, h, Finishing))
            && (forall h | h !in hs :: (h in s.pc <==> h in t.pc) && (h in s.pc ==> t.pc[h] == s.pc[h]))
    decreases |hs|
  {
    if hs == [] {
      ext := [];
      assert run + ext == run;
    } else {
      hide Valid, After;
      var first := TakeOne(run, hs[0]);
      var rest := Burst(run + first, hs[1..]);
      ext := first + rest;
      assert run + ext == run + first + rest;
      assert hs == [hs[0]] + hs[1..];
    }
  }

  /** However many responses are counted while one notifier is in its loop, they collapse into
      one more round: the notifier stores 1 and the others are on their way out. */
  lemma ManyCollapse(run: seq<Event>, n: nat, hs: seq<nat>) returns (ext: seq<Event>)
    requires Valid(run) && Distinct(hs) && hs != [] && forall h | h in hs :: h !in After(run).pc
    requires !After(run).stopped && After(run).lock.None? && At(After(run), n, Sent)
    ensures Valid(run + ext) && (forall h | h in hs :: Count(h) in ext && At(After(run + ext), h, Finishing))
    ensures ext != [] && ext[|ext| - 1] == Store(n) && (forall e | e in ext :: e != Send(n))
    ensures After(run + ext).pending == 1 && At(After(run + ext), n, Notifying) && !After(run + ext).stopped
  {
    SentMeansPending(run, n);
    hide Valid, After;
    var burst := Burst(run, hs);
    forall h | h in hs ensures Count(h) in burst {
      CountedInBetween(run, burst, h);
    }
    Collapse(run + burst, n);
    ext := burst + [Cas(n), Store(n)];
    assert run + ext == run + burst + [Cas(n), Store(n)];
  }

  lemma SentMeansPending(run: seq<Event>, n: nat)
    requires Valid(run) && At(After(run), n, Sent)
    ensures After(run).pending > 0
  {
    RunKeepsInv(run);
    assert n in Notifiers(After(run));
  }

  lemma Collapse(run: seq<Event>, n: nat)
    requires Valid(run) && At(After(run), n, Sent) && After(run).pending > 1
    ensures Valid(run + [Cas(n), Store(n)])
    ensures var s := After(run); After(run + [Cas(n), Store(n)]) == s.(pc := s.pc[n := Notifying], pending := 1)
  {
    var s := After(run);
    ExecAppend(Step, Init(), run, Cas(n));
    ExecAppend(Step, Init(), run + [Cas(n)], Store(n));
    assert run + [Cas(n), Store(n)] == run + [Cas(n)] + [Store(n)];
    assert s.pc[n := Collapsing][n := Notifying] == s.pc[n := Notifying];
  }

  /** For every `m` a run that collapses `m` counted responses. */
  lemma CollapseRun(m: nat) returns (run: seq<Event>)
    requires m > 0
    ensures Valid(run) && run != [] && run[|run| - 1] == Store(0) && !After(run).stopped
    ensures forall h | 1 <= h <= m :: Count(h) in run
  {
    var start := FirstNotifies();
    var hs := seq(m, i => i + 1);
    forall h | 1 <= h <= m ensures h in hs {
      assert hs[h - 1] == h;
    }
    hide Valid, After;
    var ext := ManyCollapse(start, 0, hs);
    run := start + ext;
  }

  lemma FirstNotifies() returns (run: seq<Event>)
    ensures Valid(run) && After(run) == State(map[0 := Sent], None, 1, 1, false, false)
  {
    var s := Init();
    run := [];
    ExecAppend(Step, s, run, Fetch(0));
    run := run + [Fetch(0)];
    ExecAppend(Step, s, run, Publish(0));
    run := run + [Publish(0)];
    ExecAppend(Step, s, run, Count(0));
    run := run + [Count(0)];
    ExecAppend(Step, s, run, Send(0));
    run := run + [Send(0)];
  }

  lemma {:induction false} CountedInBetween(run: seq<Event>, ext: seq<Event>, h: nat)
    requires Valid(run) && Valid(run + ext)
    requires h !in After(run).pc && At(After(run + ext), h, Finishing)
    ensures Count(h) in ext
  {
    RunTally(run, h);
    RunTally(run + ext, h);
    HappenedIsCounted(run, Count(h));
    HappenedIsCounted(run + ext, Count(h));
    assert Count(h) in run + ext && Count(h) !in run;
  }

  lemma OneNearer(run: seq<Event>) returns (e: Event)
    requires Valid(run) && !After(run).freed
    ensures Step(After(run), e).Some? && !e.Fetch?
    ensures var s, t := After(run), Step(After(run), e).value;
            && t.freed == (e == Free)
            && (e != Free ==> t.stopped && (s.stopped ==> Work(t) < Work(s)))
  {
    var s := After(run);
    if !s.stopped {
      e := StopIntake;
    } else {
      RunKeepsInv(run);
      DrainProgress(run);
      if Live(s) == {} {
        e := Free;
      } else {
        hide Live, Inv, Work;
        e :| OfHandler(e) && !e.Fetch? && Step(s, e).Some?;
        DrainMeasureDecreases(s, e);
      }
    }
  }

  /** Any device can be drained and freed from wherever it is: intake stops, the outstanding
      commands are answered, and the destructor returns. */
  lemma {:induction false} EveryDeviceFreed(run: seq<Event>) returns (ext: seq<Event>)
    requires Valid(run) && !After(run).freed
    ensures Valid(run + ext) && After(run + ext).freed
    ensures forall e | e in ext :: !e.Fetch?
    decreases !After(run).stopped, Work(After(run))
  {
    hide Step, Work, Inv, Live;
    var e := OneNearer(run);
    ExecAppend(Step, Init(), run, e);
    if e == Free {
      ext := [e];
    } else {
      var rest := EveryDeviceFreed(run + [e]);
      ext := [e] + rest;
      assert run + ext == run + [e] + rest;
    }
  }

  // ----- extra notifier rounds

  /** Commands that have not counted their response yet. */
  function Uncounted(s: State): set<nat> {
    set h | h in s.pc && Rank(s.pc[h]) < 2
  }

  /** Whether the current notifier has to go round once more as things stand. */
  ghost function RoundDue(s: State): nat {
    if s.pending >= 2 then 1 else 0
  }

  function Stores(run: seq<Event>): nat {
    if run == [] then 0
    else Stores(run[..|run| - 1]) + (if run[|run| - 1].Store? then 1 else 0)
  }

  lemma RoundIsPaid(s: State, e: Event)
    requires Inv(s) && s.stopped && Step(s, e).Some?
    ensures var t := Step(s, e).value;
            |Uncounted(t)| + RoundDue(t) + (if e.Store? then 1 else 0) <= |Uncounted(s)| + RoundDue(s)
  {
    var t := Step(s, e).value;
    if e.Count? {
      assert e.h in Uncounted(s);
      assert Uncounted(t) == Uncounted(s) - {e.h};
    } else {
      OnlyCountCounts(s, e);
      hide Uncounted;
    }
  }

  lemma OnlyCountCounts(s: State, e: Event)
    requires s.stopped && Step(s, e).Some? && !e.Count?
    ensures Uncounted(Step(s, e).value) == Uncounted(s)
  {
    var t := Step(s, e).value;
    assert forall h :: h in Uncounted(t) <==> h in Uncounted(s);
  }

  lemma {:induction false} RoundsUseCredit(run: seq<Event>, p: nat)
    requires Valid(run) && p <= |run|
    requires Valid(run[..p]) && After(run[..p]).stopped
    ensures var s, t := After(run[..p]), After(run);
            && t.stopped
            && Stores(run) - Stores(run[..p]) + |Uncounted(t)| + RoundDue(t) <= |Uncounted(s)| + RoundDue(s)
  {
    if p == |run| {
      assert run[..p] == run;
    } else {
      var q := run[..|run| - 1];
      assert q[..p] == run[..p];
      RunKeepsInv(q);
      RoundsUseCredit(q, p);
      RoundIsPaid(After(q), run[|run| - 1]);
    }
  }

  /** Once intake has stopped, the notifier goes round again at most once for each
      command outstanding at that moment. */
  lemma ExtraRoundsArePaid(run: seq<Event>, p: nat)
    requires Valid(run) && p <= |run|
    requires Valid(run[..p]) && After(run[..p]).stopped
    ensures Stores(run) - Stores(run[..p]) <= |Live(After(run[..p]))|
  {
    var s := After(run[..p]);
    RunKeepsInv(run[..p]);
    RoundsUseCredit(run, p);
    assert Uncounted(s) <= Live(s);
    if s.pending >= 2 {
      var n :| Notifiers(s) == {n};
      assert n in Notifiers(s);
      assert Uncounted(s) <= Live(s) - {n};
      SubsetCardinality(Uncounted(s), Live(s) - {n});
    } else {
      SubsetCardinality(Uncounted(s), Live(s));
    }
  }

  lemma SubsetCardinality(a: set<nat>, b: set<nat>)
    requires a <= b
    ensures |a| <= |b|
  {
    assert b == a + (b - a);
  }
}
