/** Recording and replaying a prefetch trace with cooperative threads.

While recording, a watcher thread looks for the lock file every second and dumps the trace
when it is gone; the destructor stops recording, joins the watcher and dumps what has not
been dumped. A dump may yield at each write. While replaying, worker threads share one
queue: testing and popping it is one step, the read that follows yields.
 */
module PrefetchReplay {
  import opened PrefetchTrace
  import opened Runs
  import PrefetchSlices

  // ----- one dump at most

  datatype Thread = Asleep | Dumping(records: seq<nat>) | Ended

  /** `open` is whether the trace file is still there to be written, `dumped` what the dumps
      that ended had taken at their start. */
  datatype Recorder = Recorder(
    stopped: bool,
    open: bool,
    records: seq<nat>,
    watcher: Thread,
    destroying: bool,
    destructor: Thread,
    dumped: seq<seq<nat>>)

  datatype Action =
    | Note(r: nat)                   // record()
    | WatcherLooks(lockPresent: bool)
    | WatcherInterrupted
    | WatcherDumped
    | DestroyBegins
    | DestroyJoins
    | DestroyDumped

  /** Enter dump(): it does nothing once the file is closed. */
  function BeginDump(s: Recorder): Thread {
    if s.open then Dumping(s.records) else Ended
  }

  function RecorderStep(s: Recorder, a: Action): Option<Recorder> {
    match a
    case Note(r) => Some(if s.stopped then s else s.(records := s.records + [r]))
    case WatcherLooks(lockPresent) =>
      if !s.watcher.Asleep? then None
      else if !lockPresent then Some(s.(stopped := true, watcher := BeginDump(s)))
      else Some(if s.stopped then s.(watcher := Ended) else s)
    case WatcherInterrupted =>
      if !s.watcher.Asleep? || !s.destroying then None else Some(s.(watcher := Ended))
    case WatcherDumped =>
      if !s.watcher.Dumping? then None
      else Some(s.(watcher := Ended, open := false, dumped := s.dumped + [s.watcher.records]))
    case DestroyBegins =>
      if s.destroying then None else Some(s.(destroying := true, stopped := true))
    case DestroyJoins =>
      if !s.destroying || !s.watcher.Ended? || !s.destructor.Asleep? then None
      else Some(s.(destructor := BeginDump(s)))
    case DestroyDumped =>
      if !s.destructor.Dumping? then None
      else Some(s.(destructor := Ended, open := false, dumped := s.dumped + [s.destructor.records]))
  }

  function StartRecording(open: bool): Recorder {
    Recorder(false, open, [], Asleep, false, Asleep, [])
  }

  predicate Recording(open: bool, run: seq<Action>) {
    IsRun(RecorderStep, StartRecording(open), run)
  }

  function Recorded(open: bool, run: seq<Action>): Recorder
    requires Recording(open, run)
  {
    Exec(RecorderStep, StartRecording(open), run).value
  }

  /** While a dump runs nothing is recorded and no other dump runs; the file is closed
      exactly by the dump, which took all the records. */
  predicate DumpInv(open: bool, s: Recorder) {
    && (s.watcher.Dumping? ==> s.stopped && s.open && s.destructor.Asleep? && s.watcher.records == s.records)
    && (s.destructor.Dumping? ==> s.stopped && s.open && s.watcher.Ended? && s.destructor.records == s.records)
    && (s.destroying ==> s.stopped) && (!s.destructor.Asleep? ==> s.destroying && s.watcher.Ended?)
    && (s.watcher.Ended? ==> s.stopped)
    && (s.open ==> open && s.dumped == [])
    && (open && !s.open ==> s.stopped && s.dumped == [s.records])
    && (!open ==> s.dumped == [])
    && (s.destructor.Ended? ==> !s.open)
  }

  lemma StepKeepsDump(open: bool, s: Recorder, a: Action)
    requires DumpInv(open, s) && RecorderStep(s, a).Some?
    ensures DumpInv(open, RecorderStep(s, a).value)
  {
  }

  lemma {:induction false} RunKeepsDump(open: bool, run: seq<Action>)
    requires Recording(open, run)
    ensures DumpInv(open, Recorded(open, run))
  {
    if run != [] {
      hide RecorderStep, DumpInv;
      RunKeepsDump(open, run[..|run| - 1]);
      StepKeepsDump(open, Recorded(open, run[..|run| - 1]), run[|run| - 1]);
    }
  }

  /** In every run the watcher and the destructor write the trace at most once between them,
      never both at a time, and what is written is every record accepted; once the destructor
      has ended it has been written, if there was a file. */
  lemma TraceWrittenOnce(open: bool, run: seq<Action>)
    requires Recording(open, run)
    ensures var s := Recorded(open, run);
            && |s.dumped| <= 1
            && !(s.watcher.Dumping? && s.destructor.Dumping?)
            && (s.watcher.Dumping? || s.destructor.Dumping? ==> s.dumped == [])
            && (s.dumped != [] ==> s.dumped == [s.records])
            && (open && s.destructor.Ended? ==> s.dumped == [s.records])
  {
    RunKeepsDump(open, run);
  }

  // ----- what is recorded

  /** The lock file is found gone, or the destructor begins. */
  predicate StopsRecording(a: Action) {
    a == WatcherLooks(false) || a == DestroyBegins
  }

  /** What was noted before recording stopped, read off the actions. */
  function NotedBeforeStop(run: seq<Action>): seq<nat> {
    if run == [] || StopsRecording(run[0]) then []
    else (if run[0].Note? then [run[0].r] else []) + NotedBeforeStop(run[1..])
  }

  predicate HasStop(run: seq<Action>) {
    exists k :: 0 <= k < |run| && StopsRecording(run[k])
  }

  lemma {:induction false} NotedAppend(run: seq<Action>, a: Action)
    ensures NotedBeforeStop(run + [a]) ==
            NotedBeforeStop(run) + (if a.Note? && !HasStop(run) then [a.r] else [])
    ensures HasStop(run + [a]) <==> HasStop(run) || StopsRecording(a)
  {
    hide StopsRecording;
    assert (run + [a])[|run|] == a;
    assert forall k | 0 <= k < |run| :: (run + [a])[k] == run[k];
    if run == [] {
      assert run + [a] == [a] && [a][1..] == [] && NotedBeforeStop([]) == [];
      assert StopsRecording(a) ==> !a.Note? by { NoteStopsNothing(a); }
    } else {
      assert (run + [a])[1..] == run[1..] + [a];
      NotedAppend(run[1..], a);
      assert forall k | 0 <= k < |run[1..]| :: run[1..][k] == run[k + 1];
      assert HasStop(run) <==> StopsRecording(run[0]) || HasStop(run[1..]) by { StopFirst(run); }
    }
  }

  lemma NoteStopsNothing(a: Action)
    ensures StopsRecording(a) ==> !a.Note?
  {
  }

  lemma StopFirst(run: seq<Action>)
    requires run != []
    ensures HasStop(run) <==> StopsRecording(run[0]) || HasStop(run[1..])
  {
    hide StopsRecording;
    forall k | 0 <= k < |run[1..]| ensures run[1..][k] == run[k + 1] {
    }
    if k :| 0 <= k < |run| && StopsRecording(run[k]) {
      assert k > 0 ==> StopsRecording(run[1..][k - 1]);
    }
    if k :| 0 <= k < |run[1..]| && StopsRecording(run[1..][k]) {
      assert StopsRecording(run[k + 1]);
    }
  }

  /** In every run the records are exactly what was noted before recording stopped, in order. */
  lemma {:induction false} RecordsAreNotes(open: bool, run: seq<Action>)
    requires Recording(open, run)
    ensures Recorded(open, run).records == NotedBeforeStop(run)
    ensures Recorded(open, run).stopped <==> HasStop(run)
  {
    if run != [] {
      var p, a := run[..|run| - 1], run[|run| - 1];
      RecordsAreNotes(open, p);
      assert run == p + [a];
      NotedAppend(p, a);
      hide NotedBeforeStop, HasStop;
    }
  }

  /** Whenever the sleeping watcher finds the lock file gone, it writes what has been recorded. */
  lemma LockGoneWrites(open: bool, run: seq<Action>)
    requires Recording(open, run) && Recorded(open, run).watcher.Asleep? && Recorded(open, run).open
    ensures var ext := [WatcherLooks(false), WatcherDumped];
            Recording(open, run + ext) && Recorded(open, run + ext).dumped == [NotedBeforeStop(run)]
  {
    RunKeepsDump(open, run);
    RecordsAreNotes(open, run);
    ExecAppend(RecorderStep, StartRecording(open), run, WatcherLooks(false));
    ExecAppend(RecorderStep, StartRecording(open), run + [WatcherLooks(false)], WatcherDumped);
    assert run + [WatcherLooks(false), WatcherDumped] == run + [WatcherLooks(false)] + [WatcherDumped];
    hide NotedBeforeStop;
  }

  function ThreadLeft(t: Thread): nat {
    match t
    case Asleep => 2
    case Dumping(_) => 1
    case Ended => 0
  }

  /** Actions until the destructor has ended. */
  function RecorderLeft(s: Recorder): nat {
    (if s.destroying then 0 else 1) + ThreadLeft(s.watcher) + ThreadLeft(s.destructor)
  }

  lemma RecorderCloser(open: bool, s: Recorder) returns (a: Action)
    requires DumpInv(open, s) && !s.destructor.Ended?
    ensures RecorderStep(s, a).Some? && !a.Note? && RecorderLeft(RecorderStep(s, a).value) < RecorderLeft(s)
  {
    a := if s.watcher.Dumping? then WatcherDumped
         else if !s.destroying then DestroyBegins
         else if s.watcher.Asleep? then WatcherInterrupted
         else if s.destructor.Asleep? then DestroyJoins else DestroyDumped;
  }

  /** A recorder can be destroyed from wherever it is, within five actions, and the trace is
      written then. */
  lemma {:induction false} EveryRecorderEnds(open: bool, run: seq<Action>) returns (ext: seq<Action>)
    requires Recording(open, run)
    ensures Recording(open, run + ext) && Recorded(open, run + ext).destructor.Ended?
    ensures |ext| <= RecorderLeft(Recorded(open, run)) <= 5 && forall a | a in ext :: !a.Note?
    decreases RecorderLeft(Recorded(open, run))
  {
    var s := Recorded(open, run);
    RunKeepsDump(open, run);
    if s.destructor.Ended? {
      ext := [];
      assert run + ext == run;
    } else {
      var a := RecorderCloser(open, s);
      ExecAppend(RecorderStep, StartRecording(open), run, a);
      hide RecorderStep, DumpInv;
      var rest := EveryRecorderEnds(open, run + [a]);
      ext := [a] + rest;
      assert run + ext == run + [a] + rest;
    }
  }

  // ----- replay workers

  datatype Worker = Looping | Reading(record: Record) | Finished

  datatype Replay = Replay(stopped: bool, queue: seq<Record>, popped: seq<Record>, workers: map<nat, Worker>)

  datatype Move =
    | Spawn(w: nat)
    | Pop(w: nat, known: bool)       // whether the record's layer is registered
    | ReadDone(w: nat)
    | Leave(w: nat)
    | Stop

  predicate IsRead(r: Record) {
    r.op == 82                       // 'R'
  }

  function ReplayStep(s: Replay, m: Move): Option<Replay> {
    match m
    case Stop => Some(s.(stopped := true))
    case Spawn(w) => if w in s.workers then None else Some(s.(workers := s.workers[w := Looping]))
    case Pop(w, known) =>
      if w !in s.workers || !s.workers[w].Looping? || s.queue == [] || s.stopped then None
      else
        Some(s.(queue := s.queue[1..], popped := s.popped + [s.queue[0]],
                workers := s.workers[w := if known && IsRead(s.queue[0]) then Reading(s.queue[0]) else Looping]))
    case ReadDone(w) =>
      if w !in s.workers || !s.workers[w].Reading? then None
      else Some(s.(workers := s.workers[w := Looping]))
    case Leave(w) =>
      if w !in s.workers || !s.workers[w].Looping? || (s.queue != [] && !s.stopped) then None
      else Some(s.(workers := s.workers[w := Finished]))
  }

  predicate Replaying(queue: seq<Record>, run: seq<Move>) {
    IsRun(ReplayStep, Replay(false, queue, [], map[]), run)
  }

  function Replayed(queue: seq<Record>, run: seq<Move>): Replay
    requires Replaying(queue, run)
  {
    Exec(ReplayStep, Replay(false, queue, [], map[]), run).value
  }

  predicate ReplayInv(queue: seq<Record>, s: Replay) {
    && s.popped + s.queue == queue
    && (!s.stopped && (exists w :: w in s.workers && s.workers[w].Finished?) ==> s.queue == [])
    && (forall w | w in s.workers && s.workers[w].Reading? ::
          s.workers[w].record in queue && IsRead(s.workers[w].record))
  }

  lemma StepKeepsReplay(queue: seq<Record>, s: Replay, m: Move)
    requires ReplayInv(queue, s) && ReplayStep(s, m).Some?
    ensures ReplayInv(queue, ReplayStep(s, m).value)
  {
    var t := ReplayStep(s, m).value;
    if m.Pop? {
      assert s.popped + s.queue == s.popped + [s.queue[0]] + s.queue[1..];
      assert queue[|s.popped|] == s.queue[0];
    }
    if !t.stopped && exists w :: w in t.workers && t.workers[w].Finished? {
      var w :| w in t.workers && t.workers[w].Finished?;
      assert !m.Leave? || m.w != w ==> w in s.workers && s.workers[w].Finished?;
    }
  }

  /** In every run with any number of workers the records popped so far and the queue make the
      reloaded sequence, so each record is popped at most once and in order; when a worker has
      finished and replay was not stopped, each was popped exactly once. */
  lemma {:induction false} PoppedOnce(queue: seq<Record>, run: seq<Move>)
    requires Replaying(queue, run)
    ensures var s := Replayed(queue, run);
            && s.popped + s.queue == queue
            && (!s.stopped && (exists w :: w in s.workers && s.workers[w].Finished?) ==> s.popped == queue)
    ensures ReplayInv(queue, Replayed(queue, run))
  {
    if run != [] {
      PoppedOnce(queue, run[..|run| - 1]);
      StepKeepsReplay(queue, Replayed(queue, run[..|run| - 1]), run[|run| - 1]);
      hide ReplayStep;
    }
  }

  // ----- what is read

  /** Whether the layer of each popped record was registered, in the order of the pops. */
  function KnownFlags(run: seq<Move>): seq<bool> {
    if run == [] then []
    else KnownFlags(run[..|run| - 1]) + (if run[|run| - 1].Pop? then [run[|run| - 1].known] else [])
  }

  /** The reads of registered layers among the first records. */
  function ReadsOf(queue: seq<Record>, known: seq<bool>): seq<Record>
    requires |known| <= |queue|
  {
    if known == [] then []
    else
      var n := |known| - 1;
      ReadsOf(queue, known[..n]) + (if known[n] && IsRead(queue[n]) then [queue[n]] else [])
  }

  /** The reads that workers have begun. */
  function Issued(queue: seq<Record>, run: seq<Move>): seq<Record>
    requires Replaying(queue, run)
  {
    if run == [] then []
    else
      var m, s := run[|run| - 1], Replayed(queue, run);
      Issued(queue, run[..|run| - 1]) +
      (if m.Pop? && m.w in s.workers && s.workers[m.w].Reading? then [s.workers[m.w].record] else [])
  }

  /** In every run the reads begun are exactly the reads of registered layers among the records
      popped, in the order of the trace. */
  lemma {:induction false} ReadExactly(queue: seq<Record>, run: seq<Move>)
    requires Replaying(queue, run)
    ensures |KnownFlags(run)| == |Replayed(queue, run).popped| <= |queue|
    ensures Issued(queue, run) == ReadsOf(queue, KnownFlags(run))
  {
    PoppedOnce(queue, run);
    if run != [] {
      var n := |run| - 1;
      var p := run[..n];
      var s := Replayed(queue, p);
      ReadExactly(queue, p);
      PoppedOnce(queue, p);
      StepReads(queue, s, run[n]);
      hide ReplayStep, ReplayInv, IsRead;
      if run[n].Pop? {
        var known := KnownFlags(run);
        assert known[..|known| - 1] == KnownFlags(p);
      } else {
        assert KnownFlags(run) == KnownFlags(p);
      }
    }
  }

  lemma StepReads(queue: seq<Record>, s: Replay, m: Move)
    requires ReplayInv(queue, s) && ReplayStep(s, m).Some?
    ensures var t := ReplayStep(s, m).value;
            if m.Pop?
            then && |t.popped| == |s.popped| + 1 <= |queue| && m.w in t.workers
                 && t.workers[m.w] ==
                    if m.known && IsRead(queue[|s.popped|]) then Reading(queue[|s.popped|]) else Looping
            else t.popped == s.popped
  {
    if m.Pop? {
      assert queue[|s.popped|] == s.queue[0];
    }
    hide IsRead;
  }

  /** Moves until a worker that goes on alone has finished. */
  function WorkerLeft(s: Replay, w: nat): nat
    requires w in s.workers
  {
    match s.workers[w]
    case Finished => 0
    case Looping => 2 * |s.queue| + 1
    case Reading(_) => 2 * |s.queue| + 2
  }

  lemma WorkerCloser(s: Replay, w: nat) returns (m: Move)
    requires w in s.workers && !s.workers[w].Finished?
    ensures ReplayStep(s, m).Some? && m != Stop && m.w == w
    ensures var t := ReplayStep(s, m).value;
            w in t.workers && t.stopped == s.stopped && WorkerLeft(t, w) < WorkerLeft(s, w)
  {
    m := if s.workers[w].Reading? then ReadDone(w)
         else if s.queue != [] && !s.stopped then Pop(w, true) else Leave(w);
  }

  /** One worker alone gets through what is left of the trace and ends. */
  lemma {:induction false} EveryRecordReplayed(queue: seq<Record>, run: seq<Move>, w: nat) returns (ext: seq<Move>)
    requires Replaying(queue, run) && w in Replayed(queue, run).workers
    ensures Replaying(queue, run + ext) && (forall m | m in ext :: m != Stop && m.w == w)
    ensures var t := Replayed(queue, run + ext);
            && w in t.workers && t.workers[w].Finished?
            && (!Replayed(queue, run).stopped ==> t.popped == queue)
    decreases WorkerLeft(Replayed(queue, run), w)
  {
    var s := Replayed(queue, run);
    if s.workers[w].Finished? {
      PoppedOnce(queue, run);
      ext := [];
      assert run + ext == run;
    } else {
      var m := WorkerCloser(s, w);
      ExecAppend(ReplayStep, Replay(false, queue, [], map[]), run, m);
      hide ReplayStep, WorkerLeft;
      var rest := EveryRecordReplayed(queue, run + [m], w);
      ext := [m] + rest;
      assert run + ext == run + [m] + rest;
    }
  }

  // ----- the workers' buffers

  /** Every read under way fits the worker's buffer. */
  predicate WithinBuffer(s: Replay) {
    forall w | w in s.workers && s.workers[w].Reading? :: s.workers[w].record.count <= PrefetchSlices.MAX_IO_SIZE
  }

  predicate ReadsFit(queue: seq<Record>) {
    forall k | 0 <= k < |queue| && IsRead(queue[k]) :: queue[k].count <= PrefetchSlices.MAX_IO_SIZE
  }

  ghost predicate BufferHolds(queue: seq<Record>, run: seq<Move>) {
    Replaying(queue, run) ==> WithinBuffer(Replayed(queue, run))
  }

  /** One worker that skips the first `k` records. */
  lemma {:induction false} SkipRun(queue: seq<Record>, k: nat) returns (run: seq<Move>)
    requires k <= |queue|
    ensures Replaying(queue, run)
    ensures Replayed(queue, run) == Replay(false, queue[k..], queue[..k], map[0 := Looping])
  {
    if k == 0 {
      run := [Spawn(0)];
      ExecAppend(ReplayStep, Replay(false, queue, [], map[]), [], Spawn(0));
      assert [] + run == run;
    } else {
      var before := SkipRun(queue, k - 1);
      run := before + [Pop(0, false)];
      ExecAppend(ReplayStep, Replay(false, queue, [], map[]), before, Pop(0, false));
      assert queue[k - 1..][1..] == queue[k..] && queue[..k - 1] + [queue[k - 1]] == queue[..k];
      assert map[0 := Looping][0 := Looping] == map[0 := Looping];
    }
  }

  /** A run in which the record at `k` is read. */
  lemma ReadRun(queue: seq<Record>, k: nat) returns (run: seq<Move>)
    requires k < |queue| && IsRead(queue[k])
    ensures Replaying(queue, run) && 0 in Replayed(queue, run).workers
    ensures Replayed(queue, run).workers[0] == Reading(queue[k])
  {
    var before := SkipRun(queue, k);
    run := before + [Pop(0, true)];
    ExecAppend(ReplayStep, Replay(false, queue, [], map[]), before, Pop(0, true));
  }

  /** In every run every read fits the worker's buffer if and only if every read in the reloaded
      trace asks for at most that many bytes. */
  lemma BufferExactly(queue: seq<Record>)
    ensures (forall run :: BufferHolds(queue, run)) <==> ReadsFit(queue)
  {
    if ReadsFit(queue) {
      forall run ensures BufferHolds(queue, run) {
        if Replaying(queue, run) {
          PoppedOnce(queue, run);
        }
      }
    } else {
      var k :| 0 <= k < |queue| && IsRead(queue[k]) && queue[k].count > PrefetchSlices.MAX_IO_SIZE;
      var run := ReadRun(queue, k);
      assert !BufferHolds(queue, run);
    }
  }

  /** A trace that reload accepts and whose only read is longer than the buffer. */
  lemma LongRead(crc: Crc)
    ensures var rs := [Record(82, [0, 0, 0], 0, 2 * PrefetchSlices.MAX_IO_SIZE, 0)];
            && AllWellFormed(rs) && Accepts(crc, Trace(crc, rs)) && Content(Trace(crc, rs)) == rs
            && exists run :: !BufferHolds(rs, run)
  {
    var rs := [Record(82, [0, 0, 0], 0, 2 * PrefetchSlices.MAX_IO_SIZE, 0)];
    TraceRoundTrip(crc, rs);
    hide Trace, Accepts, Content;
    assert !ReadsFit(rs) by { assert IsRead(rs[0]); }
    BufferExactly(rs);
  }
}
