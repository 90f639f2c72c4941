/** What becomes of a mount: the slot an automatic one ends up with, why one fails, and that
nothing keeps it waiting. */
module MountOutcome {
  import opened Runs
  import opened MountLocks

  // ----- slots have names of their own

  function DigitOf(c: char): nat {
    if '0' <= c <= '9' then c as int - '0' as int else 0
  }

  function ValueOf(s: string): nat {
    if s == "" then 0 else 10 * ValueOf(s[..|s| - 1]) + DigitOf(s[|s| - 1])
  }

  lemma {:induction false} ValueOfDigits(n: nat)
    ensures Digits(n) != "" && ValueOf(Digits(n)) == n
  {
    if n >= 10 {
      ValueOfDigits(n / 10);
      assert Digits(n)[..|Digits(n)| - 1] == Digits(n / 10);
    } else {
      assert Digits(n)[..0] == "" && ValueOf("") == 0;
    }
  }

  /** Two slots never share a directory. */
  lemma SlotNamesDiffer(i: nat, j: nat)
    ensures SlotName(i) == SlotName(j) ==> i == j
  {
    ValueOfDigits(i);
    ValueOfDigits(j);
    assert SlotName(i)[4..] == Digits(i) && SlotName(j)[4..] == Digits(j);
  }

  // ----- the slot an automatic mount gets

  predicate Free(s: State, image: nat, j: nat) {
    Dir(s.key(image), SlotName(j)) !in s.locks
  }

  /** The lowest free slot from `i` on, or 64. */
  predicate LowestFree(s: State, image: nat, i: nat, j: nat) {
    && i <= j <= SLOTS
    && (forall k | i <= k < j :: !Free(s, image, k))
    && (j < SLOTS ==> Free(s, image, j))
  }

  lemma SameLocks(s: State, t: State, image: nat, i: nat, j: nat)
    requires t.key == s.key && t.locks == s.locks && LowestFree(t, image, i, j)
    ensures LowestFree(s, image, i, j)
    ensures i > 0 && !Free(s, image, i - 1) ==> LowestFree(s, image, i - 1, j)
  {
    hide SlotName;
    forall k ensures k >= 0 ==> (Free(s, image, k) <==> Free(t, image, k)) {
    }
  }

  /** The device has taken the slot, or has failed with all of them busy. */
  function Settled(s: State, d: nat, j: nat): State
    requires d in s.devices
  {
    if j >= SLOTS then Set(s, d, Failed(SLOTS))
    else Set(s, d, Holding(SlotName(j), Some(j))).(locks := s.locks[Dir(s.key(s.devices[d].image), SlotName(j)) := d])
  }

  /** A new automatic mount, about to try slot 0. */
  function Mounting(s: State, d: nat, image: nat): (t: State)
    ensures d in t.devices && t.key == s.key
  {
    s.(devices := s.devices[d := Device(image, true, "", Scanning(0))])
  }

  predicate Scans(ext: seq<Event>, d: nat) {
    forall e | e in ext :: e == ScanTry(d)
  }

  lemma ScanFree(s: State, d: nat, i: nat)
    requires d in s.devices && s.devices[d].pc == Scanning(i) && i < SLOTS && Free(s, s.devices[d].image, i)
    ensures Step(s, ScanTry(d)) == Some(Settled(s, d, i))
  {
  }

  lemma ScanBusy(s: State, d: nat, i: nat)
    requires d in s.devices && s.devices[d].pc == Scanning(i) && i < SLOTS && !Free(s, s.devices[d].image, i)
    ensures Step(s, ScanTry(d)) == Some(Set(s, d, if i + 1 < SLOTS then Scanning(i + 1) else Failed(SLOTS)))
  {
  }

  lemma SetTwice(s: State, d: nat, p: Pc, j: nat)
    requires d in s.devices
    ensures Set(s, d, p).devices[d].image == s.devices[d].image && Settled(Set(s, d, p), d, j) == Settled(s, d, j)
  {
    var m := s.devices[d := s.devices[d].(pc := p)];
    assert m[d := m[d].(pc := Failed(SLOTS))] == s.devices[d := s.devices[d].(pc := Failed(SLOTS))];
    var q := Holding(SlotName(j), Some(j));
    assert m[d := m[d].(pc := q)] == s.devices[d := s.devices[d].(pc := q)];
  }

  /** A scanning device that goes on without interruption takes the lowest free slot, or fails
      when there is none. */
  lemma {:induction false} ScanEnds(key: nat -> nat, writable: nat -> bool, run: seq<Event>, d: nat, i: nat)
    returns (ext: seq<Event>, j: nat)
    requires Valid(key, writable, run) && i < SLOTS
    requires d in After(key, writable, run).devices && After(key, writable, run).devices[d].pc == Scanning(i)
    ensures Valid(key, writable, run + ext) && Scans(ext, d)
    ensures var s := After(key, writable, run);
            LowestFree(s, s.devices[d].image, i, j) && After(key, writable, run + ext) == Settled(s, d, j)
    decreases SLOTS - i
  {
    hide Step, SlotName, Settled, LowestFree, Free;
    var s := After(key, writable, run);
    var e := ScanTry(d);
    ext := [e];
    if Free(s, s.devices[d].image, i) {
      ScanFree(s, d, i);
      ExecAppend(Step, State(key, writable, map[], map[]), run, e);
      j := i;
      FreeIsLowest(s, s.devices[d].image, i);
    } else {
      ScanBusy(s, d, i);
      ExecAppend(Step, State(key, writable, map[], map[]), run, e);
      if i + 1 < SLOTS {
        var t := Set(s, d, Scanning(i + 1));
        var rest;
        rest, j := ScanEnds(key, writable, run + ext, d, i + 1);
        SetTwice(s, d, Scanning(i + 1), j);
        SameLocks(s, t, s.devices[d].image, i + 1, j);
        assert run + ([e] + rest) == run + [e] + rest;
        ext := [e] + rest;
      } else {
        j := SLOTS;
        LastIsBusy(s, d);
      }
    }
  }

  lemma FreeIsLowest(s: State, image: nat, i: nat)
    requires i < SLOTS && Free(s, image, i)
    ensures LowestFree(s, image, i, i)
  {
  }

  lemma LastIsBusy(s: State, d: nat)
    requires d in s.devices && !Free(s, s.devices[d].image, SLOTS - 1)
    ensures LowestFree(s, s.devices[d].image, SLOTS - 1, SLOTS) && Settled(s, d, SLOTS) == Set(s, d, Failed(SLOTS))
  {
  }

  lemma MountScans(s: State, d: nat, image: nat)
    requires d !in s.devices && !s.writable(image)
    ensures Step(s, CliMount(d, image, "")) == Some(Mounting(s, d, image))
  {
  }

  /** An automatic mount of a read-only image, at any moment and by itself, gets the lowest slot
      that is free then, and fails exactly when all 64 are held. */
  lemma AutoMount(key: nat -> nat, writable: nat -> bool, run: seq<Event>, d: nat, image: nat)
    returns (ext: seq<Event>, j: nat)
    requires Valid(key, writable, run) && d !in After(key, writable, run).devices && !writable(image)
    ensures Valid(key, writable, run + ext) && ext != [] && ext[0] == CliMount(d, image, "") && Scans(ext[1..], d)
    ensures var s := After(key, writable, run);
            && LowestFree(s, image, 0, j)
            && After(key, writable, run + ext) == Settled(Mounting(s, d, image), d, j)
  {
    hide Step, LockInv, WritableInv, Settled, LowestFree;
    RunKeeps(key, writable, run);
    var e := CliMount(d, image, "");
    var s := After(key, writable, run);
    var t := Mounting(s, d, image);
    MountScans(s, d, image);
    ExecAppend(Step, State(key, writable, map[], map[]), run, e);
    var scan;
    scan, j := ScanEnds(key, writable, run + [e], d, 0);
    SameLocks(s, t, image, 0, j);
    ext := [e] + scan;
    assert run + ext == run + [e] + scan && ext[1..] == scan;
  }

  predicate AllHeld(s: State, image: nat, n: nat) {
    && (forall i | 0 <= i < n ::
          i in s.devices && s.devices[i] == Device(image, true, "", Holding(SlotName(i), Some(i))))
    && (forall i | i in s.devices :: i < n)
    && (forall x | x in s.locks :: exists i :: 0 <= i < n && x == Dir(s.key(image), SlotName(i)))
    && (forall i | 0 <= i < n :: Dir(s.key(image), SlotName(i)) in s.locks)
  }

  lemma NextIsFree(s: State, image: nat, n: nat, j: nat)
    requires AllHeld(s, image, n) && n < SLOTS && LowestFree(s, image, 0, j)
    ensures j == n
  {
    hide SlotName;
    if !Free(s, image, n) {
      var i :| 0 <= i < n && Dir(s.key(image), SlotName(n)) == Dir(s.key(image), SlotName(i));
      SlotNamesDiffer(i, n);
    }
    assert j < n ==> Dir(s.key(image), SlotName(j)) in s.locks;
  }

  lemma NotYet(s: State, image: nat, n: nat)
    requires AllHeld(s, image, n)
    ensures n !in s.devices
  {
  }

  lemma SettledKeepsKey(s: State, d: nat, j: nat)
    requires d in s.devices
    ensures Settled(s, d, j).key == s.key
  {
  }

  lemma NextHeld(s: State, image: nat, n: nat)
    requires AllHeld(s, image, n) && n < SLOTS
    ensures AllHeld(Settled(Mounting(s, n, image), n, n), image, n + 1)
  {
    hide SlotName;
    var t := Settled(Mounting(s, n, image), n, n);
    forall x | x in t.locks ensures exists i :: 0 <= i < n + 1 && x == Dir(t.key(image), SlotName(i)) {
      if x in s.locks {
        var i :| 0 <= i < n && x == Dir(s.key(image), SlotName(i));
        assert 0 <= i < n + 1;
      } else {
        assert x == Dir(t.key(image), SlotName(n));
      }
    }
  }

  /** Any number up to 64 of automatic mounts of one image can be held at the same time, each in
      a directory of its own. */
  lemma {:induction false} ManyHeld(key: nat -> nat, writable: nat -> bool, image: nat, n: nat)
    returns (run: seq<Event>)
    requires n <= SLOTS && !writable(image)
    ensures Valid(key, writable, run) && AllHeld(After(key, writable, run), image, n)
    ensures After(key, writable, run).key == key
  {
    if n == 0 {
      run := [];
    } else {
      var before := ManyHeld(key, writable, image, n - 1);
      hide Step, Valid, After, AllHeld, Settled, LowestFree, Scans, Mounting;
      var s := After(key, writable, before);
      assert n - 1 !in s.devices by { NotYet(s, image, n - 1); }
      var ext, j := AutoMount(key, writable, before, n - 1, image);
      NextIsFree(s, image, n - 1, j);
      NextHeld(s, image, n - 1);
      SettledKeepsKey(Mounting(s, n - 1, image), n - 1, j);
      run := before + ext;
    }
  }

  // ----- why a mount fails

  /** The step makes the mount fail: an instance named for a writable image, or an invalid one; the
      lock it wants is held; the last slot is held; or a file cannot be made. */
  predicate Fails(s: State, e: Event, d: nat) {
    match e
    case CliMount(c, image, instance) => c == d && instance != "" && (s.writable(image) || !ValidInstance(instance))
    case TryLock(c) =>
      && c == d && d in s.devices && s.devices[d].pc.Trying?
      && Dir(s.key(s.devices[d].image), s.devices[d].pc.inst) in s.locks
    case ScanTry(c) =>
      && c == d && d in s.devices && s.devices[d].pc == Scanning(SLOTS - 1)
      && !Free(s, s.devices[d].image, SLOTS - 1)
    case HardError(c) => c == d
    case _ => false
  }

  predicate HasFailed(s: State, d: nat) {
    d in s.devices && s.devices[d].pc.Failed?
  }

  lemma StepFails(s: State, e: Event, d: nat)
    requires Step(s, e).Some? && (d in s.devices ==> SlotInv(s.devices[d]))
    ensures HasFailed(Step(s, e).value, d) <==> (HasFailed(s, d) && e != Exit(d)) || Fails(s, e, d)
    ensures e == Exit(d) ==> IsGone(Step(s, e).value, d)
    ensures IsGone(s, d) ==> IsGone(Step(s, e).value, d) && !Fails(s, e, d)
  {
    hide SlotName, ValidInstance;
  }

  predicate IsGone(s: State, d: nat) {
    d in s.devices && s.devices[d].pc.Gone?
  }

  ghost predicate FailsAt(key: nat -> nat, writable: nat -> bool, run: seq<Event>, k: nat, d: nat) {
    k < |run| && Valid(key, writable, run[..k]) && Fails(After(key, writable, run[..k]), run[k], d)
  }

  /** In every run a mount stands failed if and only if one of the reasons came up and the device
      has not gone away since. */
  lemma {:induction false} FailedExactly(key: nat -> nat, writable: nat -> bool, run: seq<Event>, d: nat)
    requires Valid(key, writable, run)
    ensures HasFailed(After(key, writable, run), d) <==>
            (exists k: nat :: FailsAt(key, writable, run, k, d)) && Exit(d) !in run
    ensures Exit(d) in run ==> IsGone(After(key, writable, run), d)
  {
    if run != [] {
      var n := |run| - 1;
      var p := run[..n];
      var s := After(key, writable, p);
      FailedExactly(key, writable, p, d);
      if d in s.devices {
        LowestFreeSlot(key, writable, p, d);
      }
      StepFails(s, run[n], d);
      hide Step, Fails, SlotInv;
      assert run == p + [run[n]];
      forall k: nat | k < n ensures FailsAt(key, writable, p, k, d) <==> FailsAt(key, writable, run, k, d) {
        assert p[..k] == run[..k];
      }
      assert FailsAt(key, writable, run, n, d) <==> Fails(s, run[n], d);
    }
  }

  // ----- every mount is decided

  lemma Goes(key: nat -> nat, writable: nat -> bool, run: seq<Event>, e: Event)
    requires Valid(key, writable, run) && Step(After(key, writable, run), e).Some?
    ensures Valid(key, writable, run + [e])
    ensures After(key, writable, run + [e]) == Step(After(key, writable, run), e).value
  {
    ExecAppend(Step, State(key, writable, map[], map[]), run, e);
  }

  /** Any device can ask for any image at any time. */
  lemma AnyMountBegins(key: nat -> nat, writable: nat -> bool, run: seq<Event>, e: Event)
    requires Valid(key, writable, run) && (e.CliMount? || e.DaemonStart?) && e.d !in After(key, writable, run).devices
    ensures Valid(key, writable, run + [e]) && e.d in After(key, writable, run + [e]).devices
    ensures After(key, writable, run + [e]).devices[e.d].image == e.image
  {
    Goes(key, writable, run, e);
  }

  function Left(p: Pc): nat {
    match p
    case Trying(_) => 2
    case Scanning(i) => if i < SLOTS then SLOTS - i + 1 else 2
    case Ready => 1
    case Holding(_, _) => 1
    case _ => 0
  }

  lemma AtMost(v: Device)
    ensures Left(v.pc) <= SLOTS + 1
  {
  }

  predicate OwnEvent(e: Event, d: nat) {
    e == TryLock(d) || e == ScanTry(d) || e == OpenImage(d)
  }

  lemma OneCloser(s: State, d: nat) returns (e: Event)
    requires d in s.devices && SlotInv(s.devices[d]) && Left(s.devices[d].pc) > 0
    ensures OwnEvent(e, d) && Step(s, e).Some? && d in Step(s, e).value.devices
    ensures Left(Step(s, e).value.devices[d].pc) < Left(s.devices[d].pc) && !IsGone(Step(s, e).value, d)
  {
    hide SlotName;
    e := match s.devices[d].pc
      case Trying(_) => TryLock(d)
      case Scanning(_) => ScanTry(d)
      case _ => OpenImage(d);
  }

  /** Whatever the other devices are doing, a mount or start is decided by its own steps, within 65
      of them: its image is open, or it has failed. */
  lemma {:induction false} EveryMountDecided(key: nat -> nat, writable: nat -> bool, run: seq<Event>, d: nat)
    returns (ext: seq<Event>)
    requires Valid(key, writable, run) && d in After(key, writable, run).devices
    ensures Valid(key, writable, run + ext) && d in After(key, writable, run + ext).devices
    ensures var p := After(key, writable, run + ext).devices[d].pc;
            if IsGone(After(key, writable, run), d) then p.Gone? else p.Opened? || p.Failed?
    ensures |ext| <= Left(After(key, writable, run).devices[d].pc) <= SLOTS + 1 && forall e | e in ext :: OwnEvent(e, d)
    decreases Left(After(key, writable, run).devices[d].pc)
  {
    hide Step, SlotInv, Valid, After, OwnEvent;
    var s := After(key, writable, run);
    AtMost(s.devices[d]);
    if Left(s.devices[d].pc) == 0 {
      ext := [];
      assert run + ext == run;
    } else {
      hide Left;
      LowestFreeSlot(key, writable, run, d);
      var e := OneCloser(s, d);
      Goes(key, writable, run, e);
      var rest := EveryMountDecided(key, writable, run + [e], d);
      ext := [e] + rest;
      assert run + ext == run + [e] + rest;
    }
  }

  /** A device can go away at any time, and its lock is free then. */
  lemma ExitFrees(key: nat -> nat, writable: nat -> bool, run: seq<Event>, d: nat)
    requires Valid(key, writable, run) && d in After(key, writable, run).devices
    ensures Valid(key, writable, run + [Exit(d)])
    ensures var s, t := After(key, writable, run), After(key, writable, run + [Exit(d)]);
            && (forall x | x in s.locks :: x in t.locks <==> !Holds(s, d, x))
            && (forall x | x in t.locks :: x in s.locks && t.locks[x] == s.locks[x] != d)
  {
    RunKeeps(key, writable, run);
    ExecAppend(Step, State(key, writable, map[], map[]), run, Exit(d));
  }
}
