/** What a background download comes to: when the commit file appears, when a reader is switched
to it, and that neither a download nor a directory is ever stuck.
 */
module DownloadOutcome {
  import opened Collections
  import opened Runs
  import opened Download

  // ----- the commit file appears exactly with a verified copy

  /** The step renames a temporary file that hashes to the layer's digest. */
  predicate Commits(s: State, e: Event, dir: nat) {
    && e.Rename? && e.ok && e.d in s.loaders && s.loaders[e.d].dir == dir
    && dir in s.tmp && s.hash(s.tmp[dir]) == s.digest(dir)
  }

  ghost predicate CommittedAt(init: State, run: seq<Event>, k: nat, dir: nat) {
    k < |run| && Valid(init, run[..k]) && Commits(After(init, run[..k]), run[k], dir)
  }

  lemma StepCommits(s: State, e: Event, dir: nat)
    requires Step(s, e).Some? && CopyOk(s, e.d)
    ensures dir in Step(s, e).value.commit <==> dir in s.commit || Commits(s, e, dir)
  {
    hide View;
  }

  /** In every run a directory has a commit file if and only if it had one at the start or a
      downloader renamed a temporary file with the digest of the layer. */
  lemma {:induction false} CommittedExactly(init: State, run: seq<Event>, dir: nat)
    requires Initial(init) && Valid(init, run)
    ensures dir in After(init, run).commit <==>
            dir in init.commit || exists k: nat :: CommittedAt(init, run, k, dir)
  {
    if run != [] {
      var n := |run| - 1;
      var p := run[..n];
      CommittedExactly(init, p, dir);
      RunKeeps(init, p);
      StepCommits(After(init, p), run[n], dir);
      hide Step, Commits, LockInv, CopyOk;
      forall k: nat | k < n ensures CommittedAt(init, p, k, dir) <==> CommittedAt(init, run, k, dir) {
        assert p[..k] == run[..k];
      }
      assert CommittedAt(init, run, n, dir) <==> Commits(After(init, p), run[n], dir);
    }
  }

  // ----- a reader is switched exactly to a commit file that opens

  /** A loader that is about to switch has a commit file to switch to. */
  predicate ReadyToSwitch(s: State, d: nat) {
    d in s.loaders && s.loaders[d].pc.Switching? ==> s.loaders[d].dir in s.commit
  }

  lemma StepKeepsReady(s: State, e: Event, d: nat)
    requires ReadyToSwitch(s, d) && Step(s, e).Some?
    ensures ReadyToSwitch(Step(s, e).value, d)
  {
    hide View;
  }

  lemma {:induction false} RunKeepsReady(init: State, run: seq<Event>, d: nat)
    requires Initial(init) && Valid(init, run)
    ensures ReadyToSwitch(After(init, run), d)
  {
    if run != [] {
      hide Step, ReadyToSwitch;
      RunKeepsReady(init, run[..|run| - 1], d);
      StepKeepsReady(After(init, run[..|run| - 1]), run[|run| - 1], d);
    } else {
      hide Step;
    }
  }

  /** The step opens the commit file for the loader. */
  predicate Switches(s: State, e: Event, d: nat) {
    && e == Switch(d, true) && d in s.loaders && s.loaders[d].dir in s.commit
    && View(s.format, s.commit[s.loaders[d].dir]).Some?
  }

  ghost predicate SwitchedAt(init: State, run: seq<Event>, k: nat, d: nat) {
    k < |run| && Valid(init, run[..k]) && Switches(After(init, run[..k]), run[k], d)
  }

  predicate IsSwitched(s: State, d: nat) {
    d in s.loaders && s.loaders[d].local.Some?
  }

  lemma StepSwitches(s: State, e: Event, d: nat)
    requires Step(s, e).Some?
    ensures IsSwitched(Step(s, e).value, d) <==> IsSwitched(s, d) || Switches(s, e, d)
  {
    hide View;
  }

  /** In every run a reader is on the local copy if and only if its downloader opened the commit
      file at some moment, which is there whenever a downloader tries. */
  lemma {:induction false} SwitchedExactly(init: State, run: seq<Event>, d: nat)
    requires Initial(init) && Valid(init, run)
    ensures IsSwitched(After(init, run), d) <==> exists k: nat :: SwitchedAt(init, run, k, d)
    ensures ReadyToSwitch(After(init, run), d)
  {
    RunKeepsReady(init, run, d);
    if run != [] {
      var n := |run| - 1;
      var p := run[..n];
      SwitchedExactly(init, p, d);
      StepSwitches(After(init, p), run[n], d);
      hide Step, Switches;
      forall k: nat | k < n ensures SwitchedAt(init, p, k, d) <==> SwitchedAt(init, run, k, d) {
        assert p[..k] == run[..k];
      }
      assert SwitchedAt(init, run, n, d) <==> Switches(After(init, p), run[n], d);
    } else {
      hide Step;
    }
  }

  // ----- no directory stays locked

  ghost predicate HeldInv(loaders: map<nat, Loader>, locks: set<nat>) {
    forall dir | dir in locks :: exists d :: Inside(loaders, d, dir)
  }

  /** How the step changes who is inside. */
  lemma StepInside(s: State, e: Event, dir: nat)
    requires Step(s, e).Some? && dir in Step(s, e).value.locks
    ensures || Inside(Step(s, e).value.loaders, e.d, dir)
            || (dir in s.locks && forall d | Inside(s.loaders, d, dir) :: Inside(Step(s, e).value.loaders, d, dir))
  {
    hide View;
  }

  lemma StepKeepsHeld(s: State, e: Event)
    requires HeldInv(s.loaders, s.locks) && Step(s, e).Some?
    ensures HeldInv(Step(s, e).value.loaders, Step(s, e).value.locks)
  {
    var t := Step(s, e).value;
    forall dir | dir in t.locks ensures exists d :: Inside(t.loaders, d, dir) {
      StepInside(s, e, dir);
      hide Step, Inside;
      if !Inside(t.loaders, e.d, dir) {
        var d :| Inside(s.loaders, d, dir);
        assert Inside(t.loaders, d, dir);
      }
    }
  }

  lemma {:induction false} RunKeepsHeld(init: State, run: seq<Event>)
    requires Initial(init) && Valid(init, run)
    ensures HeldInv(After(init, run).loaders, After(init, run).locks)
  {
    if run != [] {
      hide Step, HeldInv;
      RunKeepsHeld(init, run[..|run| - 1]);
      StepKeepsHeld(After(init, run[..|run| - 1]), run[|run| - 1]);
    } else {
      hide Step;
    }
  }

  // ----- every download ends

  lemma Goes(init: State, run: seq<Event>, e: Event)
    requires Valid(init, run) && Step(After(init, run), e).Some?
    ensures Valid(init, run + [e]) && After(init, run + [e]) == Step(After(init, run), e).value
  {
    ExecAppend(Step, init, run, e);
  }

  lemma Regrouped(run: seq<Event>, a: seq<Event>, b: seq<Event>)
    ensures run + (a + b) == run + a + b
  {
  }

  function Left(p: Pc): nat {
    match p
    case Waiting => 7
    case Locked => 6
    case Copying => 5
    case Copied => 4
    case Hashed(_) => 3
    case Switching => 2
    case Leaving => 1
    case Gone => 0
  }

  /** What a loader does next when everything works and the layer's bytes are `raw`: first the
      bytes, then their end. */
  function NextOf(s: State, d: nat, raw: Bytes): Event
    requires d in s.loaders
  {
    var v := s.loaders[d];
    match v.pc
    case Waiting => Lock(d)
    case Locked => Look(d)
    case Copying => if v.dir in s.tmp && s.tmp[v.dir] == raw then CopyEnds(d, true) else Write(d, raw)
    case Copied => Hash(d, true)
    case Hashed(_) => Rename(d, true)
    case Switching => Switch(d, true)
    case _ => Unlock(d, false)
  }

  predicate OthersSame(s: State, t: State, d: nat) {
    forall c | c in s.loaders && c != d :: c in t.loaders && t.loaders[c] == s.loaders[c]
  }

  /** A loader inside its directory goes on without waiting for anybody. */
  lemma InsiderCloser(s: State, d: nat) returns (e: Event)
    requires d in s.loaders && !s.loaders[d].pc.Waiting? && !s.loaders[d].pc.Gone?
    ensures e.d == d && !e.Create? && Step(s, e).Some? && d in Step(s, e).value.loaders
    ensures var t := Step(s, e).value;
            && Left(t.loaders[d].pc) < Left(s.loaders[d].pc) && !t.loaders[d].pc.Waiting?
            && t.loaders[d].dir == s.loaders[d].dir
            && (s.loaders[d].pc.Leaving? ==> t.locks == s.locks - {s.loaders[d].dir})
            && OthersSame(s, t, d)
  {
    hide View;
    e := match s.loaders[d].pc
      case Locked => Look(d)
      case Copying => CopyEnds(d, false)
      case Copied => Hash(d, true)
      case Hashed(_) => Rename(d, true)
      case Switching => Switch(d, true)
      case _ => Unlock(d, false);
  }

  lemma {:induction false} InsiderEnds(init: State, run: seq<Event>, d: nat) returns (ext: seq<Event>)
    requires Valid(init, run) && d in After(init, run).loaders
    requires !After(init, run).loaders[d].pc.Waiting? && !After(init, run).loaders[d].pc.Gone?
    ensures Valid(init, run + ext) && (forall e | e in ext :: e.d == d)
    ensures var s, t := After(init, run), After(init, run + ext);
            && d in t.loaders && t.loaders[d].pc.Gone? && s.loaders[d].dir !in t.locks && OthersSame(s, t, d)
    decreases Left(After(init, run).loaders[d].pc)
  {
    hide Step, Valid, After, View;
    var s := After(init, run);
    var e := InsiderCloser(s, d);
    Goes(init, run, e);
    ext := [e];
    var t := After(init, run + ext);
    if t.loaders[d].pc.Gone? {
      LeavesLast(s, d, e);
    } else {
      hide Left;
      var rest := InsiderEnds(init, run + ext, d);
      Regrouped(run, ext, rest);
      ext := ext + rest;
    }
  }

  lemma LeavesLast(s: State, d: nat, e: Event)
    requires d in s.loaders && e.d == d && Step(s, e).Some? && d in Step(s, e).value.loaders
    requires !s.loaders[d].pc.Gone? && Step(s, e).value.loaders[d].pc.Gone?
    ensures s.loaders[d].pc.Leaving?
  {
    hide View;
  }

  /** Whatever goes on, a downloader can end: at most the one that holds its directory has to
      leave first. */
  lemma EveryDownloadEnds(init: State, run: seq<Event>, d: nat) returns (ext: seq<Event>)
    requires Initial(init) && Valid(init, run) && d in After(init, run).loaders
    ensures Valid(init, run + ext) && d in After(init, run + ext).loaders && After(init, run + ext).loaders[d].pc.Gone?
    ensures var s := After(init, run);
            forall e | e in ext :: e.d == d || Inside(s.loaders, e.d, s.loaders[d].dir)
  {
    hide Step, View;
    var s := After(init, run);
    ext := [];
    assert run + ext == run;
    if s.loaders[d].pc.Waiting? {
      var cleared := DirectoryClears(init, run, d);
      hide Valid, After;
      LocksThen(init, run + cleared, d);
      Regrouped(run, cleared, [Lock(d)]);
      ext := cleared + [Lock(d)];
    }
    hide Valid, After, Inside;
    if !After(init, run + ext).loaders[d].pc.Gone? {
      var rest := InsiderEnds(init, run + ext, d);
      Regrouped(run, ext, rest);
      ext := ext + rest;
    }
  }

  lemma LocksThen(init: State, run: seq<Event>, d: nat)
    requires Valid(init, run) && d in After(init, run).loaders && After(init, run).loaders[d].pc.Waiting?
    requires After(init, run).loaders[d].dir !in After(init, run).locks
    ensures Valid(init, run + [Lock(d)])
    ensures After(init, run + [Lock(d)]) == Entered(After(init, run), d)
  {
    Goes(init, run, Lock(d));
  }

  function Entered(s: State, d: nat): State
    requires d in s.loaders
  {
    At(s, d, Locked).(locks := s.locks + {s.loaders[d].dir})
  }

  /** Whoever holds the directory of a waiting loader leaves it. */
  lemma DirectoryClears(init: State, run: seq<Event>, d: nat) returns (ext: seq<Event>)
    requires Initial(init) && Valid(init, run)
    requires d in After(init, run).loaders && After(init, run).loaders[d].pc.Waiting?
    ensures Valid(init, run + ext)
    ensures var s, t := After(init, run), After(init, run + ext);
            && d in t.loaders && t.loaders[d] == s.loaders[d] && s.loaders[d].dir !in t.locks
            && forall e | e in ext :: Inside(s.loaders, e.d, s.loaders[d].dir)
  {
    var s := After(init, run);
    var dir := s.loaders[d].dir;
    RunKeepsHeld(init, run);
    hide Step, View, Valid, After;
    if dir in s.locks {
      var c :| Inside(s.loaders, c, dir);
      ext := InsiderEnds(init, run, c);
    } else {
      ext := [];
      assert run + ext == run;
    }
  }

  // ----- a good download arrives

  /** The loader has what it needs of the layer `raw`. */
  predicate OnTrack(s: State, d: nat, raw: Bytes) {
    && d in s.loaders && s.hash(raw) == s.digest(s.loaders[d].dir) && View(s.format, raw).Some?
    && (s.loaders[d].dir in s.commit ==> s.commit[s.loaders[d].dir] == raw)
    && match s.loaders[d].pc
       case Locked => true
       case Copying => s.loaders[d].dir !in s.commit
       case Copied => s.loaders[d].dir !in s.commit && HasRaw(s, d, raw)
       case Hashed(sum) => s.loaders[d].dir !in s.commit && HasRaw(s, d, raw) && sum == s.hash(raw)
       case Switching => s.loaders[d].dir in s.commit
       case _ => false
  }

  predicate HasRaw(s: State, d: nat, raw: Bytes) {
    d in s.loaders && s.loaders[d].dir in s.tmp && s.tmp[s.loaders[d].dir] == raw
  }

  function TrackLeft(s: State, d: nat, raw: Bytes): nat
    requires d in s.loaders
  {
    2 * Left(s.loaders[d].pc) + if s.loaders[d].pc.Copying? && HasRaw(s, d, raw) then 0 else 1
  }

  predicate Arrived(s: State, d: nat, raw: Bytes) {
    && d in s.loaders && s.loaders[d].dir in s.commit && s.commit[s.loaders[d].dir] == raw
    && s.loaders[d].local == View(s.format, raw)
  }

  lemma TrackCloser(s: State, d: nat, raw: Bytes)
    requires OnTrack(s, d, raw)
    ensures Step(s, NextOf(s, d, raw)).Some? && d in Step(s, NextOf(s, d, raw)).value.loaders
    ensures var t := Step(s, NextOf(s, d, raw)).value;
            && (OnTrack(t, d, raw) || Arrived(t, d, raw))
            && TrackLeft(t, d, raw) < TrackLeft(s, d, raw)
            && t.hash == s.hash && t.format == s.format
  {
    hide View;
  }

  lemma {:induction false} TrackEnds(init: State, run: seq<Event>, d: nat, raw: Bytes) returns (ext: seq<Event>)
    requires Valid(init, run) && OnTrack(After(init, run), d, raw)
    ensures Valid(init, run + ext) && Arrived(After(init, run + ext), d, raw)
    ensures forall e | e in ext :: e.d == d
    decreases TrackLeft(After(init, run), d, raw)
  {
    var s := After(init, run);
    assert d in s.loaders;
    hide Step, Valid, After, OnTrack, Arrived, TrackLeft;
    TrackCloser(s, d, raw);
    var e := NextOf(s, d, raw);
    assert e.d == d;
    Goes(init, run, e);
    ext := [e];
    if !Arrived(After(init, run + ext), d, raw) {
      var rest := TrackEnds(init, run + ext, d, raw);
      Regrouped(run, ext, rest);
      ext := ext + rest;
    }
  }

  /** Main theorem. In every run, a waiting downloader of a layer whose bytes have its digest can
      still bring it: the directory clears, the copy is verified and renamed, and its reader is
      on the local copy. A commit file that is there already, with the digest, serves as well. */
  lemma EveryLayerArrives(init: State, run: seq<Event>, d: nat, raw: Bytes) returns (ext: seq<Event>)
    requires Initial(init) && Valid(init, run)
    requires d in After(init, run).loaders && After(init, run).loaders[d].pc.Waiting?
    requires var dir := After(init, run).loaders[d].dir;
             init.hash(raw) == init.digest(dir) && View(init.format, raw).Some? && DigestDetermines(init, dir, raw)
    ensures Valid(init, run + ext) && Arrived(After(init, run + ext), d, raw)
  {
    hide Step, View, LockInv, CopyOk;
    var cleared := DirectoryClears(init, run, d);
    var r1 := run + cleared;
    LocksThen(init, r1, d);
    RunKeeps(init, r1);
    CommitIsVerified(init, r1, After(init, r1).loaders[d].dir);
    assert OnTrack(After(init, r1 + [Lock(d)]), d, raw);
    hide Valid, After, OnTrack, Arrived;
    var rest := TrackEnds(init, r1 + [Lock(d)], d, raw);
    Regrouped(run, cleared, [Lock(d)]);
    Regrouped(run, cleared + [Lock(d)], rest);
    ext := cleared + [Lock(d)] + rest;
  }
}
