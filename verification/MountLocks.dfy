/** Image and instance locks: the flock on `<base>/<image-key>/<instance>/.lock` that CLI
mounts and daemon starts take before an image is opened.

Devices of any number of processes run at the same time; every lock attempt is one
event. flock is exclusive between open descriptions, so the holder of a lock is a device,
and the kernel drops it when the device goes away.
 */
module MountLocks {
  import opened Runs

  const SLOTS := 64

  /** A lock file: the image key and the instance name. */
  datatype Dir = Dir(key: nat, inst: string)

  /** Where a device stands. `Trying` is about to lock one named instance, `Scanning` the
      automatic slot `i`; `Ready` needs no lock; the lock held is remembered by name, and
      by slot when it was found by scanning; `seen` counts the busy slots before a failure. */
  datatype Pc =
    | Trying(inst: string)
    | Scanning(i: nat)
    | Ready
    | Holding(name: string, slot: Option<nat>)
    | Opened(lock: Option<string>, slot: Option<nat>)
    | Failed(seen: nat)
    | Gone

  /** `cli` tells a CLI mount from a daemon start; `asked` is the instance it asked for, empty
      when none. */
  datatype Device = Device(image: nat, cli: bool, asked: string, pc: Pc)

  /** `key` is the hash of the image's canonical path and `writable` whether its config
      has an upper layer; both are fixed. */
  datatype State = State(
    key: nat -> nat,
    writable: nat -> bool,
    locks: map<Dir, nat>,
    devices: map<nat, Device>)

  datatype Event =
    | CliMount(d: nat, image: nat, instance: string)   // empty: automatic
    | DaemonStart(d: nat, image: nat)
    | TryLock(d: nat)
    | ScanTry(d: nat)
    | HardError(d: nat)            // a directory or lock file cannot be made
    | OpenImage(d: nat)
    | Exit(d: nat)

  function Digits(n: nat): string {
    if n < 10 then [('0' as int + n) as char] else Digits(n / 10) + [('0' as int + n % 10) as char]
  }

  function SlotName(i: nat): string {
    "inst" + Digits(i)
  }

  predicate ValidInstance(s: string) {
    && 0 < |s| <= 64
    && forall c | c in s :: 'a' <= c <= 'z' || 'A' <= c <= 'Z' || '0' <= c <= '9' || c in "._-"
  }

  /** What setup_cache_root does first. */
  function FirstPc(s: State, image: nat, instance: string): Pc {
    if instance != "" then
      if s.writable(image) || !ValidInstance(instance) then Failed(0) else Trying(instance)
    else if s.writable(image) then Trying("inst0")
    else Scanning(0)
  }

  function Set(s: State, d: nat, p: Pc): State
    requires d in s.devices
  {
    s.(devices := s.devices[d := s.devices[d].(pc := p)])
  }

  /** One attempt on `<image>/<name>/.lock`; `onBusy` says what follows when it is held. */
  function Attempt(s: State, d: nat, name: string, slot: Option<nat>, onBusy: Pc): State
    requires d in s.devices
  {
    var dir := Dir(s.key(s.devices[d].image), name);
    if dir in s.locks then Set(s, d, onBusy)
    else Set(s, d, Holding(name, slot)).(locks := s.locks[dir := d])
  }

  function Step(s: State, e: Event): Option<State> {
    match e
    case CliMount(d, image, instance) =>
      if d in s.devices then None
      else Some(s.(devices := s.devices[d := Device(image, true, instance, FirstPc(s, image, instance))]))
    case DaemonStart(d, image) =>
      if d in s.devices then None
      else Some(s.(devices := s.devices[d := Device(image, false, "",
          if s.writable(image) then Trying("inst0") else Ready)]))
    case TryLock(d) =>
      if d !in s.devices || !s.devices[d].pc.Trying? then None
      else Some(Attempt(s, d, s.devices[d].pc.inst, None, Failed(0)))
    case ScanTry(d) =>
      if d !in s.devices || !s.devices[d].pc.Scanning? then None
      else
        var i := s.devices[d].pc.i;
        Some(Attempt(s, d, SlotName(i), Some(i), if i + 1 < SLOTS then Scanning(i + 1) else Failed(SLOTS)))
    case HardError(d) =>
      if d !in s.devices || !(s.devices[d].pc.Trying? || s.devices[d].pc.Scanning?) then None
      else Some(Set(s, d, Failed(Passed(s.devices[d].pc))))
    case OpenImage(d) =>
      if d !in s.devices then None
      else
        (match s.devices[d].pc
         case Holding(name, slot) => Some(Set(s, d, Opened(Some(name), slot)))
         case Ready => Some(Set(s, d, Opened(None, None)))
         case _ => None)
    case Exit(d) =>
      if d !in s.devices then None
      else Some(Set(s, d, Gone).(locks := map x | x in s.locks && s.locks[x] != d :: s.locks[x]))
  }

  predicate Valid(key: nat -> nat, writable: nat -> bool, run: seq<Event>) {
    IsRun(Step, State(key, writable, map[], map[]), run)
  }

  function After(key: nat -> nat, writable: nat -> bool, run: seq<Event>): State
    requires Valid(key, writable, run)
  {
    Exec(Step, State(key, writable, map[], map[]), run).value
  }

  /** The lock a device has, if any. */
  function LockOf(v: Device): Option<string> {
    match v.pc
    case Holding(name, _) => Some(name)
    case Opened(lock, _) => lock
    case _ => None
  }

  /** The device holds the lock of that directory. */
  predicate Holds(s: State, d: nat, dir: Dir) {
    d in s.devices && LockOf(s.devices[d]) == Some(dir.inst) && s.key(s.devices[d].image) == dir.key
  }

  /** The lock table is exactly what the devices hold. */
  ghost predicate LockInv(s: State) {
    && (forall x | x in s.locks :: Holds(s, s.locks[x], x))
    && (forall d, x | Holds(s, d, x) :: x in s.locks && s.locks[x] == d)
  }

  /** A device that appears without a lock or keeps the one it has. */
  lemma DeviceKeepsLocks(s: State, d: nat, v: Device)
    requires LockInv(s)
    requires if d in s.devices then LockOf(v) == LockOf(s.devices[d]) && v.image == s.devices[d].image
             else LockOf(v).None?
    ensures LockInv(s.(devices := s.devices[d := v]))
  {
    var t := s.(devices := s.devices[d := v]);
    forall c, x ensures Holds(t, c, x) <==> Holds(s, c, x) {
    }
  }

  lemma AttemptKeepsLocks(s: State, d: nat, name: string, slot: Option<nat>, onBusy: Pc)
    requires LockInv(s) && d in s.devices
    requires LockOf(s.devices[d]).None? && LockOf(s.devices[d].(pc := onBusy)).None?
    ensures LockInv(Attempt(s, d, name, slot, onBusy))
  {
    var dir := Dir(s.key(s.devices[d].image), name);
    if dir in s.locks {
      DeviceKeepsLocks(s, d, s.devices[d].(pc := onBusy));
    } else {
      var t := Attempt(s, d, name, slot, onBusy);
      forall c, x ensures Holds(t, c, x) <==> Holds(s, c, x) || (c == d && x == dir) {
      }
    }
  }

  lemma ExitKeepsLocks(s: State, d: nat)
    requires LockInv(s) && d in s.devices
    ensures LockInv(Step(s, Exit(d)).value)
  {
    var t := Step(s, Exit(d)).value;
    forall c, x ensures Holds(t, c, x) <==> Holds(s, c, x) && c != d {
    }
  }

  lemma StepKeepsLocks(s: State, e: Event)
    requires LockInv(s) && Step(s, e).Some?
    ensures LockInv(Step(s, e).value)
  {
    hide LockInv, Attempt;
    match e
    case Exit(d) => ExitKeepsLocks(s, d);
    case TryLock(d) => AttemptKeepsLocks(s, d, s.devices[d].pc.inst, None, Failed(0));
    case ScanTry(d) =>
      var i := s.devices[d].pc.i;
      AttemptKeepsLocks(s, d, SlotName(i), Some(i), if i + 1 < SLOTS then Scanning(i + 1) else Failed(SLOTS));
    case _ => DeviceKeepsLocks(s, e.d, Step(s, e).value.devices[e.d]);
  }

  /** Where a device of a writable image can be. */
  predicate WritableInv(s: State) {
    forall d | d in s.devices && s.writable(s.devices[d].image) ::
      match s.devices[d].pc
      case Trying(inst) => inst == "inst0"
      case Holding(name, _) => name == "inst0"
      case Opened(lock, _) => lock == Some("inst0")
      case Failed(_) => true
      case Gone => true
      case _ => false
  }

  lemma StepKeepsWritable(s: State, e: Event)
    requires WritableInv(s) && Step(s, e).Some?
    ensures WritableInv(Step(s, e).value)
  {
  }

  lemma StepKeepsWorld(s: State, e: Event)
    requires Step(s, e).Some?
    ensures Step(s, e).value.key == s.key && Step(s, e).value.writable == s.writable
  {
  }

  lemma {:induction false} RunKeeps(key: nat -> nat, writable: nat -> bool, run: seq<Event>)
    requires Valid(key, writable, run)
    ensures LockInv(After(key, writable, run)) && WritableInv(After(key, writable, run))
    ensures After(key, writable, run).key == key && After(key, writable, run).writable == writable
  {
    if run != [] {
      hide Step, LockInv, WritableInv;
      var p := run[..|run| - 1];
      RunKeeps(key, writable, p);
      StepKeepsLocks(After(key, writable, p), run[|run| - 1]);
      StepKeepsWritable(After(key, writable, p), run[|run| - 1]);
      StepKeepsWorld(After(key, writable, p), run[|run| - 1]);
    }
  }

  /** In every run each image and instance directory has at most one holder. */
  lemma OneHolder(key: nat -> nat, writable: nat -> bool, run: seq<Event>, d: nat, e: nat, dir: Dir)
    requires Valid(key, writable, run)
    requires Holds(After(key, writable, run), d, dir) && Holds(After(key, writable, run), e, dir)
    ensures d == e
  {
    RunKeeps(key, writable, run);
  }

  /** In every run a writable image is open in at most one device, whether mounted by the
      CLI or started by a daemon. */
  lemma WritableOpenOnce(key: nat -> nat, writable: nat -> bool, run: seq<Event>, d: nat, e: nat)
    requires Valid(key, writable, run)
    requires var s := After(key, writable, run);
             && d in s.devices && e in s.devices
             && s.devices[d].pc.Opened? && s.devices[e].pc.Opened?
             && s.devices[d].image == s.devices[e].image && writable(s.devices[d].image)
    ensures d == e
  {
    RunKeeps(key, writable, run);
    var s := After(key, writable, run);
    var dir := Dir(key(s.devices[d].image), "inst0");
    assert Holds(s, d, dir) && Holds(s, e, dir);
  }

  /** The lock a device goes for and gets is the one its request calls for. */
  predicate AsAsked(v: Device, writable: bool) {
    match v.pc
    case Trying(inst) => if writable then v.asked == "" && inst == "inst0"
        else v.cli && inst == v.asked && ValidInstance(inst)
    case Scanning(_) => v.cli && !writable && v.asked == ""
    case Ready => !v.cli && !writable
    case Holding(name, slot) => HoldsAsAsked(v, writable, name, slot)
    case Opened(Some(name), slot) => HoldsAsAsked(v, writable, name, slot)
    case Opened(None, _) => !v.cli && !writable
    case Failed(_) => true
    case Gone => true
  }

  predicate HoldsAsAsked(v: Device, writable: bool, name: string, slot: Option<nat>) {
    if writable then v.asked == "" && name == "inst0"
    else v.cli && if v.asked != "" then name == v.asked && ValidInstance(name) && slot == None else slot.Some?
  }

  lemma StepAsAsked(s: State, e: Event, d: nat)
    requires Step(s, e).Some? && d in Step(s, e).value.devices
    requires d in s.devices ==> AsAsked(s.devices[d], s.writable(s.devices[d].image))
    ensures var t := Step(s, e).value; AsAsked(t.devices[d], s.writable(t.devices[d].image))
  {
    hide SlotName, ValidInstance;
    if e.TryLock? && e.d == d {
      EmptyIsInvalid();
    }
  }

  lemma EmptyIsInvalid()
    ensures !ValidInstance("")
  {
  }

  /** In every run a device that holds or uses a lock has the one its request calls for: a
      writable image its only instance, an explicit request the instance named, an automatic
      one a numbered slot; an explicit instance of a writable image or an invalid one is
      refused, and only a daemon opens a read-only image without a lock. */
  lemma {:induction false} LockAsAsked(key: nat -> nat, writable: nat -> bool, run: seq<Event>, d: nat)
    requires Valid(key, writable, run) && d in After(key, writable, run).devices
    ensures var v := After(key, writable, run).devices[d]; AsAsked(v, writable(v.image))
  {
    var p, e := run[..|run| - 1], run[|run| - 1];
    var s := After(key, writable, p);
    RunKeeps(key, writable, p);
    if d in s.devices {
      LockAsAsked(key, writable, p, d);
    }
    StepAsAsked(s, e, d);
    hide Step, AsAsked;
  }

  // ----- the lowest free slot

  /** The device tried slot `j` at some moment of the run and found it held. */
  ghost predicate SawBusy(key: nat -> nat, writable: nat -> bool, run: seq<Event>, d: nat, image: nat, j: nat)
    requires Valid(key, writable, run)
  {
    exists k :: 0 <= k < |run| && run[k] == ScanTry(d) && BusyAt(key, writable, run, k, d, image, j)
  }

  ghost predicate BusyAt(key: nat -> nat, writable: nat -> bool, run: seq<Event>, k: nat, d: nat, image: nat, j: nat)
    requires k <= |run|
  {
    && Valid(key, writable, run[..k])
    && d in After(key, writable, run[..k]).devices && After(key, writable, run[..k]).devices[d].pc == Scanning(j)
    && Dir(key(image), SlotName(j)) in After(key, writable, run[..k]).locks
  }

  lemma SawBusyLasts(key: nat -> nat, writable: nat -> bool, run: seq<Event>, d: nat, image: nat, j: nat)
    requires Valid(key, writable, run) && run != []
    requires Valid(key, writable, run[..|run| - 1])
    requires SawBusy(key, writable, run[..|run| - 1], d, image, j)
    ensures SawBusy(key, writable, run, d, image, j)
  {
    var p := run[..|run| - 1];
    var k :| 0 <= k < |p| && p[k] == ScanTry(d) && BusyAt(key, writable, p, k, d, image, j);
    assert p[..k] == run[..k];
    assert run[k] == ScanTry(d) && BusyAt(key, writable, run, k, d, image, j);
  }

  /** How many slots a device has behind it. */
  function Passed(p: Pc): nat {
    match p
    case Scanning(i) => i
    case Failed(seen) => seen
    case Holding(_, Some(i)) => i
    case Opened(_, Some(i)) => i
    case _ => 0
  }

  predicate SlotInv(v: Device) {
    && (v.pc.Scanning? ==> v.pc.i < SLOTS)
    && (v.pc.Holding? && v.pc.slot.Some? ==> v.pc.slot.value < SLOTS && v.pc.name == SlotName(v.pc.slot.value))
    && (v.pc.Opened? && v.pc.slot.Some? ==> v.pc.slot.value < SLOTS && v.pc.lock == Some(SlotName(v.pc.slot.value)))
  }

  lemma StepPasses(s: State, e: Event, d: nat)
    requires Step(s, e).Some? && d in Step(s, e).value.devices
    requires d in s.devices ==> SlotInv(s.devices[d])
    ensures var t := Step(s, e).value;
            && SlotInv(t.devices[d])
            && (d in s.devices ==> t.devices[d].image == s.devices[d].image)
            && (if d in s.devices && Passed(t.devices[d].pc) > Passed(s.devices[d].pc)
                then && e == ScanTry(d) && Passed(t.devices[d].pc) == Passed(s.devices[d].pc) + 1
                     && s.devices[d].pc == Scanning(Passed(s.devices[d].pc))
                     && Dir(s.key(s.devices[d].image), SlotName(Passed(s.devices[d].pc))) in s.locks
                else d !in s.devices ==> Passed(t.devices[d].pc) == 0)
  {
    hide SlotName;
  }

  /** An automatic read-only mount has the lowest slot of the 64 it found free, trying
      them in order: each lower one was held at the moment it was tried. One that fails with
      all slots busy found each of the 64 held. */
  lemma {:induction false} LowestFreeSlot(key: nat -> nat, writable: nat -> bool, run: seq<Event>, d: nat)
    requires Valid(key, writable, run) && d in After(key, writable, run).devices
    ensures var v := After(key, writable, run).devices[d];
            && SlotInv(v)
            && forall j | 0 <= j < Passed(v.pc) :: SawBusy(key, writable, run, d, v.image, j)
  {
    var p, e := run[..|run| - 1], run[|run| - 1];
    var s, t := After(key, writable, p), After(key, writable, run);
    RunKeeps(key, writable, p);
    if d in s.devices {
      LowestFreeSlot(key, writable, p, d);
    }
    StepPasses(s, e, d);
    hide Step, SlotInv;
    var v := t.devices[d];
    forall j | 0 <= j < Passed(v.pc) ensures SawBusy(key, writable, run, d, v.image, j) {
      if j < Passed(s.devices[d].pc) {
        SawBusyLasts(key, writable, run, d, v.image, j);
      } else {
        assert run[|run| - 1] == ScanTry(d) && BusyAt(key, writable, run, |run| - 1, d, v.image, j);
      }
    }
  }
}
