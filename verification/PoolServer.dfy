/** The daemon's request handlers with the warm pool, one request at a time.

What the environment does during a request is a parameter of its handler, so the contracts
say what happens in every environment and the examples at the end are runs in one.
 */
module PoolServer {
  import opened Collections
  import opened Runs
  import opened WarmPool

  /** One turn of the refill loop: the placeholder can be made, the device starts, and the
      kernel offers this id. */
  datatype Shell = Shell(prepared: bool, starts: bool, id: nat)

  /** What happens during a request: the image opens for the pool, a swap goes through, a start
      succeeds with this id, nothing stands in the way of recycling, and the refill. */
  datatype Env = Env(opens: bool, swaps: bool, starts: bool, id: nat, recycles: bool, refill: seq<Shell>)

  datatype Request =
    | Acquire(path: nat, wantShared: bool)
    | Release(id: nat)
    | Delete(id: nat)
    | Add(path: nat)

  datatype Reply = Granted(id: nat) | Released(left: int) | Refused(code: nat)

  /** The kernel gives out ids that no live device has. */
  predicate FreshId(live: map<nat, Device>, id: nat) {
    forall d | d in live :: live[d].id != id
  }

  /** The test of take_pooled. */
  predicate Matches(v: Device, file: Image) {
    v.backing.blockSize == file.blockSize && Sectors(v.backing) == Sectors(file) && !v.backing.readOnly
  }

  /** `at` is the first idle device that matches, or the end. */
  predicate FirstMatch(live: map<nat, Device>, idle: seq<Parked>, file: Image, at: nat) {
    && at <= |idle|
    && (forall j | 0 <= j < |idle| :: idle[j].dev in live)
    && (forall j | 0 <= j < at :: !Matches(live[idle[j].dev], file))
    && (at < |idle| ==> Matches(live[idle[at].dev], file))
  }

  /** The index of the first idle device that matches, or the number of idle devices. */
  function FirstMatching(live: map<nat, Device>, idle: seq<Parked>, file: Image): (at: nat)
    ensures at <= |idle|
  {
    if idle == [] || (idle[0].dev in live && Matches(live[idle[0].dev], file)) then 0
    else 1 + FirstMatching(live, idle[1..], file)
  }

  lemma {:induction false} MatchIsFirst(live: map<nat, Device>, idle: seq<Parked>, file: Image, at: nat)
    requires FirstMatch(live, idle, file, at)
    ensures at == FirstMatching(live, idle, file)
  {
    hide Matches;
    if at > 0 {
      assert !Matches(live[idle[0].dev], file);
      forall j | 0 <= j < |idle| - 1 ensures idle[1..][j] == idle[j + 1] {
      }
      MatchIsFirst(live, idle[1..], file, at - 1);
    }
  }

  /** The idle devices and the live ones when the one at `at`, if there is one, is gone. */
  function IdleLeft(idle: seq<Parked>, at: nat): seq<Parked> {
    if at < |idle| then RemoveAt(idle, at) else idle
  }

  function LiveLeft(live: map<nat, Device>, idle: seq<Parked>, at: nat): map<nat, Device> {
    if at < |idle| then Without(live, idle[at].dev) else live
  }

  lemma NothingTried(live: map<nat, Device>, idle: seq<Parked>)
    ensures LiveLeft(live, idle, |idle|) == live && IdleLeft(idle, |idle|) == idle
  {
  }

  /** What a start comes to: 500 when it fails, 400 for a writable image that was to be shared. */
  function StartReply(live: map<nat, Device>, starts: bool, id: nat, share: bool, file: Image): Reply {
    if !starts || !FreshId(live, id) then Refused(500)
    else if share && !file.readOnly then Refused(400) else Granted(id)
  }

  /** Which idle device an acquire tries: only for an exclusive lease and with the pool on. */
  function Tried(low: nat, live: map<nat, Device>, idle: seq<Parked>, share: bool, file: Image): (at: nat)
    ensures at <= |idle|
  {
    if share || low == 0 then |idle| else FirstMatching(live, idle, file)
  }

  /** The answer to an acquire: the shared device of the path; 500 when the image does not open for
      the pool; the pooled device that was swapped; or what a start comes to, after a device that
      could not be swapped is gone. */
  function AcquireReply(low: nat, live: map<nat, Device>, idle: seq<Parked>, shared: map<nat, nat>, share: bool,
                        path: nat, file: Image, env: Env): Reply {
    var at := Tried(low, live, idle, share, file);
    if share && path in shared then Granted(shared[path])
    else if !share && low > 0 && idle != [] && !env.opens then Refused(500)
    else if at < |idle| && env.swaps && idle[at].dev in live then Granted(live[idle[at].dev].id)
    else StartReply(LiveLeft(live, idle, at), env.starts, env.id, share, file)
  }

  /** The turn of the refill loop after `n` devices fails. */
  predicate StopsAt(shells: seq<Shell>, n: int, live: map<nat, Device>) {
    0 <= n < |shells| ==> !shells[n].prepared || !shells[n].starts || !FreshId(live, shells[n].id)
  }

  /** The slot the next device is made on. */
  function NextSlot(free: seq<nat>, nextSlot: nat): nat {
    if free != [] then free[|free| - 1] else nextSlot
  }

  /** No device of `before` was changed or destroyed. */
  predicate Extends(before: map<nat, Device>, after: map<nat, Device>) {
    forall d | d in before :: d in after && after[d] == before[d]
  }

  /** Devices made before there were `made0` of them and still there are those that were there,
      with the same id and announced capacity. */
  predicate ShellsKept(before: map<nat, Device>, made0: nat, after: map<nat, Device>) {
    forall d | d in after && d < made0 ::
      d in before && after[d].id == before[d].id && after[d].made == before[d].made
  }

  lemma ShellsChain(a: map<nat, Device>, m: nat, b: map<nat, Device>, n: nat, c: map<nat, Device>)
    requires m <= n && ShellsKept(a, m, b) && ShellsKept(b, n, c)
    ensures ShellsKept(a, m, c)
  {
  }

  lemma ShellsSame(a: map<nat, Device>, m: nat)
    ensures ShellsKept(a, m, a)
  {
  }

  lemma ExtendsChain(a: map<nat, Device>, b: map<nat, Device>, c: map<nat, Device>)
    ensures Extends(a, a)
    ensures Extends(a, b) && Extends(b, c) ==> Extends(a, c)
  {
  }

  lemma StopsHere(shells: seq<Shell>, k: nat, live: map<nat, Device>, shell: Shell)
    requires k < |shells| ==> shell == shells[k]
    requires !(shell.prepared && shell.starts && FreshId(live, shell.id))
    ensures StopsAt(shells, k, live)
  {
  }

  lemma Capacities(live: map<nat, Device>, devices: map<nat, Lease>, idle: seq<Parked>, free: seq<nat>, use: seq<Use>,
                   ph: nat -> Image)
    requires PoolInv(live, devices, idle, free, use, ph)
    ensures forall d | d in live :: SameCapacity(live[d].made, live[d].backing)
  {
  }

  class UblkdServer {
    const low: nat
    const high: nat
    const sharing: bool
    const placeholder: nat -> Image      // the image of each placeholder slot
    const image: nat -> Image            // the image of each canonical config path
    var live: map<nat, Device>           // device objects that have not been destroyed
    var made: nat
    var devices: map<nat, Lease>
    var shared: map<nat, nat>
    var idle: seq<Parked>
    var free: seq<nat>
    var nextSlot: nat
    ghost var use: seq<Use>
    ghost var torn: seq<Torn>            // leases torn down so far

    /** Ownership, slots and capacity. */
    ghost predicate Pool()
      reads this
    {
      && PoolInv(live, devices, idle, free, use, placeholder)
      && nextSlot == |use|
      && |idle| <= high && low <= high
      && forall d | d in live :: d < made
    }

    /** The index and the leases, and a slot is lost exactly when a pooled lease with it was torn
        down. */
    ghost predicate Books()
      reads this
    {
      IndexInv(devices, shared) && LeaseInv(live, devices, image) && LostSlots(use) == SlotsOf(torn)
    }

    ghost predicate Valid()
      reads this
    {
      Pool() && Books()
    }

    ghost function Lost(): set<nat>
      reads this
    {
      LostSlots(use)
    }

    constructor (low: nat, high: nat, sharing: bool, placeholder: nat -> Image, image: nat -> Image)
      ensures Valid() && live == map[] && devices == map[] && idle == [] && free == [] && nextSlot == 0
      ensures shared == map[] && made == 0 && torn == [] && this.sharing == sharing
      ensures this.low == low && this.high == if high > low then high else low
      ensures this.placeholder == placeholder && this.image == image
    {
      this.low, this.high := low, if high > low then high else low;
      this.sharing, this.placeholder, this.image := sharing, placeholder, image;
      live, made, devices, shared, idle, free, nextSlot := map[], 0, map[], map[], [], [], 0;
      use, torn := [], [];
    }

    /** UblkDevice::start. */
    method StartDevice(file: Image, starts: bool, id: nat) returns (r: Option<nat>)
      requires forall d | d in live :: d < made
      modifies this`live, this`made
      ensures made >= old(made) && forall d | d in live :: d < made
      ensures r == if starts && FreshId(old(live), id) then Some(old(made)) else None
      ensures live == if r.Some? then old(live)[old(made) := Device(id, file, file)] else old(live)
    {
      if !starts || !FreshId(live, id) {
        return None;
      }
      r := Some(made);
      live := live[made := Device(id, file, file)];
      made := made + 1;
    }

    /** Hot-swap the image into the first idle device whose capacity matches: on success the
        device has left the pool and is the caller's; when the swap fails it is destroyed and
        its slot freed; when none matches nothing changes. No slot is lost. */
    method TakePooled(file: Image, swaps: bool) returns (r: Option<Parked>, ghost at: nat)
      requires Pool()
      modifies this`live, this`idle, this`free, this`use
      ensures FirstMatch(old(live), old(idle), file, at) && at <= |old(idle)|
      ensures r == if swaps && at < |old(idle)| then Some(old(idle)[at]) else None
      ensures at < |old(idle)| ==> idle == RemoveAt(old(idle), at)
      ensures r.None? ==> Pool() && Lost() == old(Lost())
      ensures r.None? && at < |old(idle)| ==>
                && live == Without(old(live), old(idle)[at].dev)
                && free == old(free) + [old(idle)[at].slot]
      ensures r.None? && at == |old(idle)| ==> unchanged(this)
      ensures r.Some? ==>
                && unchanged(`free, `use)
                && live == old(live)[r.value.dev := old(live)[r.value.dev].(backing := file)]
    {
      hide OwnInv, SlotInv, CapInv;
      var i := 0;
      IdleLive(live, devices, idle);
      while i < |idle|
        invariant 0 <= i <= |idle|
        invariant unchanged(this)
        invariant forall j | 0 <= j < i :: !Matches(live[idle[j].dev], file)
      {
        var p := idle[i];
        var candidate := live[p.dev];
        if candidate.backing.blockSize == file.blockSize && Sectors(candidate.backing) == Sectors(file)
           && !candidate.backing.readOnly {
          if swaps {
            live := live[p.dev := candidate.(backing := file)];
            idle := RemoveAt(idle, i);
            return Some(p), i;
          }
          DropIdle(live, devices, idle, free, use, placeholder, i);
          live := Without(live, p.dev);
          idle := RemoveAt(idle, i);
          free := free + [p.slot];
          use := use[p.slot := Free];
          return None, i;
        }
        i := i + 1;
      }
      return None, i;
    }

    /** Park a released device on its own placeholder again, if the pool has room and nothing
        stands in the way; the caller takes it off the lease table. */
    method ReturnToPool(id: nat, recycles: bool) returns (ok: bool)
      requires Pool() && id in devices && devices[id].slot.Some?
      modifies this`live, this`idle
      ensures ok <==> |old(idle)| < high && recycles
      ensures !ok ==> unchanged(this)
      ensures devices[id].dev in old(live)
      ensures ok ==> idle == old(idle) + [Parked(devices[id].dev, devices[id].slot.value)]
      ensures ok ==> live == old(live)[devices[id].dev := old(live)[devices[id].dev].(
                                         backing := placeholder(devices[id].slot.value))]
    {
      var l := devices[id];
      LeaseLive(live, devices, idle, id);
      hide OwnInv, SlotInv, CapInv;
      if |idle| >= high || !recycles {
        return false;
      }
      live := live[l.dev := live[l.dev].(backing := placeholder(l.slot.value))];
      idle := idle + [Parked(l.dev, l.slot.value)];
      ok := true;
    }

    /** Take a slot, the last freed one or a new one. */
    method TakeSlot() returns (slot: nat)
      requires Pool()
      modifies this`free, this`nextSlot, this`use
      ensures slot == NextSlot(old(free), old(nextSlot))
      ensures free == if old(free) != [] then old(free)[..|old(free)| - 1] else []
      ensures nextSlot == old(nextSlot) + (if old(free) != [] then 0 else 1)
      ensures nextSlot == |use| && slot < nextSlot && Lost() == old(Lost())
      ensures PoolInv(live, devices, idle, free + [slot], use, placeholder)
    {
      hide OwnInv, SlotInv, CapInv;
      if free != [] {
        slot := free[|free| - 1];
        assert free == free[..|free| - 1] + [slot];
        LastIsUsed(use, free, idle, devices);
        free := free[..|free| - 1];
      } else {
        SlotGrow(use, free, idle, devices);
        LostGrow(use);
        slot := nextSlot;
        nextSlot := nextSlot + 1;
        use := use + [Free];
      }
    }

    /** One more parked device, unless its placeholder or its start fails; then the slot goes to
        the free list. */
    method RefillOne(shell: Shell) returns (ok: bool)
      requires Pool() && |idle| < high
      modifies this`live, this`made, this`idle, this`free, this`nextSlot, this`use
      ensures Pool() && Lost() == old(Lost()) && Extends(old(live), live)
      ensures made >= old(made) && ShellsKept(old(live), old(made), live)
      ensures ok <==> shell.prepared && shell.starts && FreshId(old(live), shell.id)
      ensures nextSlot == old(nextSlot) + (if old(free) != [] then 0 else 1)
      ensures var slot := NextSlot(old(free), old(nextSlot));
              && idle == (if ok then old(idle) + [Parked(old(made), slot)] else old(idle))
              && live == (if ok then old(live)[old(made) := Device(shell.id, placeholder(slot), placeholder(slot))]
                          else old(live))
      ensures free == if ok && old(free) != [] then old(free)[..|old(free)| - 1]
                      else if !ok && old(free) == [] then [old(nextSlot)] else old(free)
    {
      hide PoolInv, LostSlots;
      var slot := TakeSlot();
      var r: Option<nat> := None;
      ghost var before := live;
      if shell.prepared {
        r := StartDevice(placeholder(slot), shell.starts, shell.id);
      }
      if r.None? {
        free := free + [slot];
        return false;
      }
      ParkSlot(before, devices, idle, free, slot, use, placeholder, r.value, live[r.value]);
      idle := idle + [Parked(r.value, slot)];
      use := use[slot := Idle(r.value)];
      ok := true;
    }

    /** Create parked devices up to the low mark; below it only because one failed. */
    method RefillPool(shells: seq<Shell>)
      requires Pool()
      modifies this`live, this`made, this`idle, this`free, this`nextSlot, this`use
      ensures Pool() && Lost() == old(Lost()) && Extends(old(live), live)
      ensures made >= old(made) && ShellsKept(old(live), old(made), live)
      ensures old(idle) <= idle && (|idle| == old(|idle|) || |idle| <= low)
      ensures |idle| < low ==> StopsAt(shells, |idle| - old(|idle|), live)
      ensures shells == [] ==> idle == old(idle) && live == old(live)
    {
      hide PoolInv, LostSlots, StopsAt, ShellsKept, Extends;
      var k := 0;
      ExtendsChain(live, live, live);
      assert ShellsKept(live, made, live) by { ShellsSame(live, made); }
      while |idle| < low
        invariant Pool() && Lost() == old(Lost()) && Extends(old(live), live)
        invariant made >= old(made) && ShellsKept(old(live), old(made), live)
        invariant old(idle) <= idle && (|idle| == old(|idle|) || |idle| <= low)
        invariant k == 0 ==> idle == old(idle) && live == old(live)
        invariant 0 <= k <= |shells| && |idle| == old(|idle|) + k
        decreases low - |idle|
      {
        ghost var live1, made1 := live, made;
        var shell := if k < |shells| then shells[k] else Shell(false, false, 0);
        var ok := RefillOne(shell);
        ShellsChain(old(live), old(made), live1, made1, live);
        ExtendsChain(old(live), live1, live);
        if !ok {
          StopsHere(shells, k, live, shell);
          return;
        }
        k := k + 1;
      }
    }

    /** Stop, wait, teardown and erase of a listed device. A pooled device's slot is lost. */
    method RemoveDevice(id: nat)
      requires Pool() && LeaseInv(live, devices, image) && LostSlots(use) == SlotsOf(torn) && id in devices
      modifies this`live, this`devices, this`use, this`torn
      ensures Pool() && LeaseInv(live, devices, image) && LostSlots(use) == SlotsOf(torn)
      ensures devices == Without(old(devices), id) && live == Without(old(live), old(devices)[id].dev)
      ensures torn == old(torn) + [Torn(id, old(devices)[id])]
      ensures Lost() == old(Lost()) + SlotOf(old(devices)[id])
    {
      hide PoolInv, LostSlots, SlotsOf, SlotOf, LeaseInv;
      ghost var live0, devices0 := live, devices;
      OtherDevice(live, devices, idle, free, use, placeholder, id);
      DropLease(live, devices, idle, free, use, placeholder, id);
      SlotsOfPush(torn, Torn(id, devices[id]));
      use := AfterTeardown(use, devices[id]);
      torn := torn + [Torn(id, devices[id])];
      live := Without(live, devices[id].dev);
      devices := Without(devices, id);
      LeasesKept(live0, live, devices0, devices, image);
    }

    /** The fast path: an exclusive lease served from the pool, exactly when an idle device
        matches and the swap goes through. The device keeps the mode it was announced with, which
        is the image's exactly when the image is writable. */
    method LeasePooled(path: nat, swaps: bool) returns (r: Option<nat>, ghost at: nat)
      requires Valid()
      modifies this`live, this`idle, this`free, this`use, this`devices
      ensures Valid() && Lost() == old(Lost())
      ensures ShellsKept(old(live), made, live)
      ensures at == FirstMatching(old(live), old(idle), image(path)) <= |old(idle)|
      ensures r.Some? <==> swaps && at < |old(idle)|
      ensures r.None? ==> devices == old(devices) && live == LiveLeft(old(live), old(idle), at)
      ensures idle == IdleLeft(old(idle), at)
      ensures r.Some? ==>
                && old(idle)[at].dev in old(live) && r.value == old(live)[old(idle)[at].dev].id
                && FreshLease(old(devices), devices, live, r.value, path, false, image(path))
                && devices[r.value].slot == Some(old(idle)[at].slot)
                && (ModeKept(live[devices[r.value].dev]) <==> !image(path).readOnly)
    {
      ghost var live0, idle0, devices0, free0, use0 := live, idle, devices, free, use;
      hide PoolInv, LostSlots, SlotsOf, IndexInv, LeaseInv, FirstMatch, FirstMatching;
      var t;
      t, at := TakePooled(image(path), swaps);
      MatchIsFirst(live0, idle0, image(path), at);
      if t.None? {
        if at < |idle0| {
          IdleIsNotLeased(live0, devices, idle0, free0, use0, placeholder, at);
        }
        LeasesKept(live0, live, devices, devices, image);
        return None, at;
      }
      var l := Lease(t.value.dev, path, false, 1, Some(t.value.slot));
      MatchFits(live0, idle0, image(path), at);
      TakeListed(live0, devices, idle0, free, use, placeholder, at, l, image(path));
      IndexList(devices, shared, live[l.dev].id, l);
      r := Some(live[l.dev].id);
      devices := devices[live[l.dev].id := l];
      use := use[t.value.slot := Leased(l.dev)];
      LeasesKept(live0, live, devices0, devices, image);
    }

    /** A device started for the request, exactly when the start succeeds; a writable one may
        not be shared and is taken down again. */
    method LeaseNew(path: nat, share: bool, starts: bool, kernelId: nat) returns (r: Reply)
      requires Valid() && (share ==> path !in shared)
      modifies this`live, this`made, this`devices, this`shared
      ensures Valid() && Lost() == old(Lost())
      ensures made >= old(made) && ShellsKept(old(live), old(made), live)
      ensures r == StartReply(old(live), starts, kernelId, share, image(path))
      ensures r.Refused? ==> devices == old(devices) && live == old(live) && shared == old(shared)
      ensures r.Granted? ==>
                && FreshLease(old(devices), devices, live, r.id, path, share, image(path))
                && devices[r.id].slot.None? && Extends(old(live), live)
                && shared == if share then old(shared)[path := r.id] else old(shared)
    {
      ghost var live0, devices0 := live, devices;
      hide LostSlots, SlotsOf, IndexInv, LeaseInv, PoolInv;
      var t := StartDevice(image(path), starts, kernelId);
      if t.None? {
        return Refused(500);
      }
      var d := t.value;
      if share && !image(path).readOnly {
        live := Without(live, d);
        assert live == live0;
        return Refused(400);
      }
      var l := Lease(d, path, share, 1, None);
      List(live0, devices, idle, free, use, placeholder, l, live[d]);
      IndexList(devices, shared, kernelId, l);
      r := Granted(kernelId);
      devices := devices[kernelId := l];
      if share {
        shared := shared[path := kernelId];
      }
      LeasesKept(live0, live, devices0, devices, image);
    }

    method SetRefcount(id: nat, n: int)
      requires Valid() && id in devices && n >= 1
      modifies this`devices
      ensures Valid() && devices == old(devices)[id := old(devices)[id].(refcount := n)]
    {
      hide PoolInv, LostSlots, SlotsOf, IndexInv, LeaseInv;
      ghost var devices0 := devices;
      Recount(live, devices, idle, free, use, placeholder, id, n);
      IndexRecount(devices, shared, id, n);
      devices := devices[id := devices[id].(refcount := n)];
      LeasesKept(live, live, devices0, devices, image);
    }

    /** A lease on a pooled device or on a new one. */
    method LeaseDevice(path: nat, share: bool, env: Env) returns (r: Reply)
      requires Valid() && (share ==> path !in shared)
      modifies this
      ensures Valid() && Lost() == old(Lost()) && torn == old(torn)
      ensures made >= old(made) && ShellsKept(old(live), old(made), live)
      ensures r == AcquireReply(low, old(live), old(idle), old(shared), share, path, image(path), env)
      ensures r.Refused? ==> devices == old(devices) && shared == old(shared)
      ensures r.Granted? ==>
                && FreshLease(old(devices), devices, live, r.id, path, share, image(path))
                && shared == if share then old(shared)[path := r.id] else old(shared)
      ensures var at := Tried(low, old(live), old(idle), share, image(path));
              var stays := !share && low > 0 && !env.opens;
              && idle == (if stays then old(idle) else IdleLeft(old(idle), at))
              && (r.Refused? ==> live == if stays then old(live) else LiveLeft(old(live), old(idle), at))
              && (r.Granted? && at < |old(idle)| && env.swaps ==>
                    devices[r.id].slot.Some? && (ModeKept(live[devices[r.id].dev]) <==> !image(path).readOnly))
    {
      hide PoolInv, LostSlots, SlotsOf, LeaseInv, IndexInv, FirstMatch, FirstMatching, FreshLease, ModeKept, StartReply;
      hide LiveLeft, IdleLeft, ShellsKept;
      NothingTried(live, idle);
      ShellsSame(live, made);
      ghost var live0, made0 := live, made;
      var pooled: Option<nat> := None;
      if !share && low > 0 && idle != [] {
        if !env.opens {
          return Refused(500);
        }
        ghost var at;
        pooled, at := LeasePooled(path, env.swaps);
      }
      if pooled.Some? {
        return Granted(pooled.value);
      }
      ghost var live1 := live;
      r := LeaseNew(path, share, env.starts, env.id);
      ShellsChain(live0, made0, live1, made0, live);
    }

    /** One more holder of the path's shared device, or a lease on a pooled or a new one, and then
        the pool is filled up. */
    method HandleAcquire(path: nat, wantShared: bool, env: Env) returns (r: Reply)
      requires Valid()
      modifies this
      ensures Valid() && Lost() == old(Lost()) && torn == old(torn)
      ensures made >= old(made) && ShellsKept(old(live), old(made), live)
      ensures r == AcquireReply(low, old(live), old(idle), old(shared), wantShared && sharing, path, image(path), env)
      ensures r.Refused? ==>
                var at := Tried(low, old(live), old(idle), wantShared && sharing, image(path));
                var stays := !(wantShared && sharing) && low > 0 && !env.opens;
                && devices == old(devices) && shared == old(shared)
                && idle == (if stays then old(idle) else IdleLeft(old(idle), at))
                && live == if stays then old(live) else LiveLeft(old(live), old(idle), at)
      ensures r.Granted? ==> Acquired(old(devices), devices, live, r.id, path, wantShared && sharing, image(path))
      ensures r.Granted? && wantShared && sharing ==> path in shared && shared[path] == r.id
      ensures r.Granted? && r.id in old(devices) <==> wantShared && sharing && path in old(shared)
      ensures wantShared && sharing && path in old(shared) ==> live == old(live) && idle == old(idle)
      ensures r.Granted? && !(wantShared && sharing && path in old(shared)) ==>
                var at := Tried(low, old(live), old(idle), wantShared && sharing, image(path));
                && IdleLeft(old(idle), at) <= idle
                && (|idle| < low ==> StopsAt(env.refill, |idle| - |IdleLeft(old(idle), at)|, live))
                && (at < |old(idle)| && env.swaps ==>
                      && devices[r.id].slot.Some? && devices[r.id].dev in live
                      && (ModeKept(live[devices[r.id].dev]) <==> !image(path).readOnly))
    {
      hide PoolInv, LostSlots, SlotsOf, LeaseInv, FirstMatch, FirstMatching, StopsAt;
      var share := wantShared && sharing;
      if share && path in shared {
        HitIsTrue(live, devices, shared, image, path);
        hide IndexInv;
        SetRefcount(shared[path], devices[shared[path]].refcount + 1);
        return Granted(shared[path]);
      }
      hide IndexInv;
      r := LeaseDevice(path, share, env);
      if r.Granted? && low > 0 {
        Refill(env.refill);
      }
    }

    /** RefillPool leaves the leases alone. */
    method Refill(shells: seq<Shell>)
      requires Valid()
      modifies this`live, this`made, this`idle, this`free, this`nextSlot, this`use
      ensures Valid() && Lost() == old(Lost()) && Extends(old(live), live)
      ensures made >= old(made) && ShellsKept(old(live), old(made), live)
      ensures old(idle) <= idle && (|idle| == old(|idle|) || |idle| <= low)
      ensures |idle| < low ==> StopsAt(shells, |idle| - old(|idle|), live)
      ensures shells == [] ==> idle == old(idle) && live == old(live)
    {
      ghost var live0 := live;
      hide PoolInv, LostSlots, SlotsOf, IndexInv, LeaseInv;
      RefillPool(shells);
      LeasesKept(live0, live, devices, devices, image);
    }

    /** /v1/add: a device started for the request. */
    method HandleAdd(path: nat, env: Env) returns (r: Reply)
      requires Valid()
      modifies this
      ensures Valid() && Lost() == old(Lost()) && torn == old(torn)
      ensures made >= old(made) && ShellsKept(old(live), old(made), live)
      ensures r == if env.starts && FreshId(old(live), env.id) then Granted(env.id) else Refused(500)
      ensures r.Refused? ==> devices == old(devices) && live == old(live)
      ensures r.Granted? ==>
                FreshLease(old(devices), devices, live, r.id, path, false, image(path)) && Extends(old(live), live)
    {
      hide PoolInv, LostSlots, SlotsOf, IndexInv, LeaseInv;
      r := LeaseNew(path, false, env.starts, env.id);
    }

    /** /v1/release: one holder less. The last one parks the device on its own placeholder,
        exactly when it is pooled, the pool has room and nothing stands in the way; otherwise
        the device is destroyed and a pooled one's slot lost. No other device is touched. */
    method HandleRelease(id: nat, env: Env) returns (r: Reply)
      requires Valid()
      modifies this
      ensures Valid()
      ensures made >= old(made) && ShellsKept(old(live), old(made), live)
      ensures id !in old(devices) ==> r == Refused(404) && unchanged(this)
      ensures id in old(devices) && old(devices)[id].refcount > 1 ==>
                var l := old(devices)[id];
                && r == Released(l.refcount - 1)
                && devices == old(devices)[id := l.(refcount := l.refcount - 1)]
                && live == old(live) && idle == old(idle) && Lost() == old(Lost()) && torn == old(torn)
      ensures id in old(devices) && old(devices)[id].refcount <= 1 ==>
                var l := old(devices)[id];
                && r == Released(0) && devices == Without(old(devices), id)
                && (forall d | d in old(live) && d != l.dev :: d in live && live[d] == old(live)[d])
                && if l.slot.Some? && |old(idle)| < high && env.recycles
                   then ParkedAgain(live, idle, l, placeholder) && Lost() == old(Lost()) && torn == old(torn)
                   else l.dev !in live && Lost() == old(Lost()) + SlotOf(l) && torn == old(torn) + [Torn(id, l)]
    {
      hide PoolInv, LostSlots, SlotsOf, SlotOf, LeaseInv, IndexInv, ParkedAgain;
      if id !in devices {
        return Refused(404);
      }
      var l := devices[id];
      if l.refcount - 1 > 0 {
        SetRefcount(id, l.refcount - 1);
        return Released(l.refcount - 1);
      }
      DropLast(id, env.recycles);
      r := Released(0);
    }

    /** The last holder goes. */
    method DropLast(id: nat, recycles: bool)
      requires Valid() && id in devices
      modifies this
      ensures Valid() && devices == Without(old(devices), id)
      ensures made == old(made) && ShellsKept(old(live), old(made), live)
      ensures forall d | d in old(live) && d != old(devices)[id].dev :: d in live && live[d] == old(live)[d]
      ensures var l := old(devices)[id];
              if l.slot.Some? && |old(idle)| < high && recycles
              then ParkedAgain(live, idle, l, placeholder) && Lost() == old(Lost()) && torn == old(torn)
              else l.dev !in live && Lost() == old(Lost()) + SlotOf(l) && torn == old(torn) + [Torn(id, l)]
    {
      hide PoolInv, LostSlots, SlotsOf, SlotOf, LeaseInv, IndexInv, ParkedAgain;
      IndexDrop(devices, shared, id);
      var l := devices[id];
      if l.shared {
        shared := Without(shared, l.path);
      }
      var parked := false;
      if l.slot.Some? {
        parked := Repark(id, recycles);
      }
      if !parked {
        RemoveDevice(id);
      }
    }

    method Repark(id: nat, recycles: bool) returns (ok: bool)
      requires Pool() && LeaseInv(live, devices, image) && LostSlots(use) == SlotsOf(torn)
      requires id in devices && devices[id].slot.Some?
      modifies this`live, this`idle, this`devices, this`use
      ensures Pool() && LeaseInv(live, devices, image) && LostSlots(use) == SlotsOf(torn) && Lost() == old(Lost())
      ensures ok <==> |old(idle)| < high && recycles
      ensures ShellsKept(old(live), made, live)
      ensures !ok ==> devices == old(devices) && live == old(live) && idle == old(idle)
      ensures ok ==>
                && devices == Without(old(devices), id)
                && ParkedAgain(live, idle, old(devices)[id], placeholder)
                && forall d | d in old(live) && d != old(devices)[id].dev :: d in live && live[d] == old(live)[d]
    {
      ghost var live0, idle0, devices0 := live, idle, devices;
      hide PoolInv, LostSlots, SlotsOf, LeaseInv;
      var l := devices[id];
      OtherDevice(live, devices, idle, free, use, placeholder, id);
      ok := ReturnToPool(id, recycles);
      if ok {
        Return(live0, devices, idle0, free, use, placeholder, id, live[l.dev]);
        assert idle[|idle0|] == Parked(l.dev, l.slot.value);
        devices := Without(devices, id);
        use := use[l.slot.value := Idle(l.dev)];
        LeasesKept(live0, live, devices0, devices, image);
      }
    }

    /** /v1/del: only for devices that are not shared; a pooled one's slot is lost. */
    method HandleDelete(id: nat) returns (r: Reply)
      requires Valid()
      modifies this
      ensures Valid()
      ensures made >= old(made) && ShellsKept(old(live), old(made), live)
      ensures id !in old(devices) ==> r == Refused(404) && unchanged(this)
      ensures id in old(devices) && old(devices)[id].shared ==> r == Refused(409) && unchanged(this)
      ensures id in old(devices) && !old(devices)[id].shared ==>
                var l := old(devices)[id];
                && r == Released(0)
                && devices == Without(old(devices), id) && live == Without(old(live), l.dev)
                && idle == old(idle) && free == old(free)
                && Lost() == old(Lost()) + SlotOf(l) && torn == old(torn) + [Torn(id, l)]
    {
      hide PoolInv, LostSlots, SlotsOf, IndexInv, LeaseInv;
      if id !in devices {
        return Refused(404);
      }
      if devices[id].shared {
        return Refused(409);
      }
      IndexDrop(devices, shared, id);
      RemoveDevice(id);
      r := Released(0);
    }

    /** One idle device is destroyed. */
    method DropIdleDevice()
      requires Pool() && idle != []
      modifies this`live, this`idle, this`free, this`use
      ensures Pool() && idle == RemoveAt(old(idle), 0)
    {
      hide PoolInv;
      var p := idle[0];
      DropIdle(live, devices, idle, free, use, placeholder, 0);
      live := Without(live, p.dev);
      idle := RemoveAt(idle, 0);
      free := free + [p.slot];
      use := use[p.slot := Free];
    }

    /** The destructor: every device, leased or idle, is destroyed. */
    method Shutdown()
      requires Valid()
      modifies this
      ensures Pool() && live == map[] && devices == map[] && idle == []
    {
      hide PoolInv, LostSlots, SlotsOf, LeaseInv, IndexInv;
      while devices != map[]
        invariant Pool() && LeaseInv(live, devices, image) && LostSlots(use) == SlotsOf(torn)
        decreases devices.Keys
      {
        var id :| id in devices;
        assert Without(devices, id).Keys == devices.Keys - {id};
        RemoveDevice(id);
      }
      while idle != []
        invariant Pool() && devices == map[]
        decreases |idle|
      {
        DropIdleDevice();
      }
      NothingLive(live, devices, idle, free, use, placeholder);
    }

    /** One request. A lease is torn down only by a delete, or by a last release that does not
        park it. */
    method Handle(request: Request, env: Env) returns (r: Reply)
      requires Valid()
      modifies this
      ensures Valid()
      ensures made >= old(made) && ShellsKept(old(live), old(made), live)
      ensures r == ReplyTo(low, old(live), old(idle), old(shared), old(devices), sharing, image, request, env)
      ensures torn == if Tears(old(devices), old(|idle|), high, request, env)
                      then old(torn) + [Torn(request.id, old(devices)[request.id])] else old(torn)
    {
      hide PoolInv, LostSlots, SlotsOf, SlotOf, LeaseInv, IndexInv, Acquired, FreshLease, ParkedAgain;
      match request {
        case Acquire(path, wantShared) => r := HandleAcquire(path, wantShared, env);
        case Release(id) => r := HandleRelease(id, env);
        case Delete(id) => r := HandleDelete(id);
        case Add(path) => r := HandleAdd(path, env);
      }
    }

    /** Any sequence of requests, handled one after the other, in any environment. `whose` lists the
        requests that tore a lease down, one for each lease and naming its id; the slots lost are
        those of the pooled ones among these leases and no other. A device that is still there
        has its id and announced capacity still, and an image of that capacity behind it. */
    method Serve(requests: seq<Request>, envs: seq<Env>) returns (ghost whose: seq<nat>)
      requires Valid() && |envs| == |requests|
      modifies this
      ensures Valid() && old(torn) <= torn
      ensures Lost() == old(Lost()) + SlotsOf(torn[|old(torn)|..])
      ensures |whose| == |torn| - |old(torn)| && Distinct(whose)
      ensures forall m | 0 <= m < |whose| ::
                && whose[m] < |requests| && (requests[whose[m]].Delete? || requests[whose[m]].Release?)
                && requests[whose[m]].id == torn[|old(torn)| + m].id
      ensures made >= old(made) && ShellsKept(old(live), old(made), live)
      ensures forall d | d in live :: SameCapacity(live[d].made, live[d].backing)
    {
      hide PoolInv, LostSlots, SlotsOf, LeaseInv, IndexInv;
      whose := [];
      for k := 0 to |requests|
        invariant Valid() && old(torn) <= torn
        invariant |whose| == |torn| - |old(torn)| && Distinct(whose)
        invariant forall m | 0 <= m < |whose| ::
                    && whose[m] < k && (requests[whose[m]].Delete? || requests[whose[m]].Release?)
                    && requests[whose[m]].id == torn[|old(torn)| + m].id
        invariant made >= old(made) && ShellsKept(old(live), old(made), live)
      {
        ghost var before, live1, made1 := torn, live, made;
        var r := Handle(requests[k], envs[k]);
        if torn != before {
          whose := whose + [k];
        }
        ShellsChain(old(live), old(made), live1, made1, live);
      }
      SlotsSplit(old(torn), torn);
      Capacities(live, devices, idle, free, use, placeholder);
    }
  }

  lemma HitIsTrue(live: map<nat, Device>, devices: map<nat, Lease>, shared: map<nat, nat>, image: nat -> Image,
                  path: nat)
    requires IndexInv(devices, shared) && LeaseInv(live, devices, image) && path in shared
    ensures shared[path] in devices && devices[shared[path]].refcount >= 1
    ensures devices[shared[path]].shared && devices[shared[path]].path == path
    ensures devices[shared[path]].dev in live && live[devices[shared[path]].dev].backing == image(path)
  {
    assert LeaseTrue(live, devices[shared[path]], image);
  }

  /** One more holder of a listed device of the path that has the path's image behind it, or a
      fresh lease on one. */
  predicate Acquired(before: map<nat, Lease>, after: map<nat, Lease>, live: map<nat, Device>, id: nat, path: nat,
                     shared: bool, file: Image) {
    if id in before then
      && shared && before[id].shared && before[id].path == path
      && before[id].dev in live && live[before[id].dev].backing == file
      && after == before[id := before[id].(refcount := before[id].refcount + 1)]
    else FreshLease(before, after, live, id, path, shared, file)
  }

  /** The device of the lease is parked on the placeholder of its own slot. */
  predicate ParkedAgain(live: map<nat, Device>, idle: seq<Parked>, l: Lease, ph: nat -> Image) {
    && l.slot.Some? && Parked(l.dev, l.slot.value) in idle
    && l.dev in live && live[l.dev].backing == ph(l.slot.value)
  }

  /** A new entry for a live device that now has the image behind it. */
  predicate FreshLease(before: map<nat, Lease>, after: map<nat, Lease>, live: map<nat, Device>, id: nat, path: nat,
                       shared: bool, file: Image) {
    && id !in before && id in after && after == before[id := after[id]]
    && after[id].shared == shared && after[id].refcount == 1 && after[id].path == path
    && after[id].dev in live && live[after[id].dev].id == id && live[after[id].dev].backing == file
  }

  /** The image behind the device has the mode the device was announced with. */
  predicate ModeKept(v: Device) {
    v.made.readOnly == v.backing.readOnly
  }

  lemma IdleIsNotLeased(live: map<nat, Device>, devices: map<nat, Lease>, idle: seq<Parked>, free: seq<nat>,
                        use: seq<Use>,
                        ph: nat -> Image, i: nat)
    requires PoolInv(live, devices, idle, free, use, ph) && i < |idle|
    ensures idle[i].dev in live
    ensures forall id | id in devices :: devices[id].dev != idle[i].dev
  {
    IdleNotListed(live, devices, idle, i);
  }

  lemma MatchFits(live: map<nat, Device>, idle: seq<Parked>, file: Image, at: nat)
    requires FirstMatch(live, idle, file, at) && at < |idle|
    ensures idle[at].dev in live && Matches(live[idle[at].dev], file)
  {
  }

  lemma TakeListed(live: map<nat, Device>, devices: map<nat, Lease>, idle: seq<Parked>, free: seq<nat>, use: seq<Use>,
                   ph: nat -> Image, i: nat, l: Lease, file: Image)
    requires PoolInv(live, devices, idle, free, use, ph) && i < |idle|
    requires l.dev == idle[i].dev && l.slot == Some(idle[i].slot) && l.dev in live && l.refcount == 1
    requires Matches(live[l.dev], file)
    ensures idle[i].slot < |use| && LostSlots(use[idle[i].slot := Leased(l.dev)]) == LostSlots(use)
    ensures !live[l.dev].made.readOnly
    ensures forall id | id in devices :: devices[id].dev != l.dev
    ensures var v := live[l.dev].(backing := file);
            && FreshLease(devices, devices[v.id := l], live[l.dev := v], v.id, l.path, l.shared, file)
            && PoolInv(live[l.dev := v], devices[v.id := l], RemoveAt(idle, i), free,
                  use[idle[i].slot := Leased(l.dev)], ph)
  {
    IdleNotListed(live, devices, idle, i);
    IdleIsNotLeased(live, devices, idle, free, use, ph, i);
    assert ParkedOn(live, idle[i].dev, idle[i].slot, ph);
    hide PoolInv;
    Take(live, devices, idle, free, use, ph, i, l, live[l.dev].(backing := file));
  }

  lemma IndexList(devices: map<nat, Lease>, shared: map<nat, nat>, id: nat, l: Lease)
    requires IndexInv(devices, shared) && id !in devices && (l.shared ==> l.path !in shared)
    ensures IndexInv(devices[id := l], if l.shared then shared[l.path := id] else shared)
  {
  }

  lemma IndexDrop(devices: map<nat, Lease>, shared: map<nat, nat>, id: nat)
    requires IndexInv(devices, shared) && id in devices
    ensures IndexInv(Without(devices, id), if devices[id].shared then Without(shared, devices[id].path) else shared)
  {
  }

  lemma IndexRecount(devices: map<nat, Lease>, shared: map<nat, nat>, id: nat, n: int)
    requires IndexInv(devices, shared) && id in devices
    ensures IndexInv(devices[id := devices[id].(refcount := n)], shared)
  {
  }

  lemma IdleLive(live: map<nat, Device>, devices: map<nat, Lease>, idle: seq<Parked>)
    requires OwnInv(live, devices, idle)
    ensures forall j | 0 <= j < |idle| :: idle[j].dev in live
  {
  }

  lemma LeaseLive(live: map<nat, Device>, devices: map<nat, Lease>, idle: seq<Parked>, id: nat)
    requires OwnInv(live, devices, idle) && id in devices
    ensures devices[id].dev in live && live[devices[id].dev].id == id
  {
  }

  /** Other leases have other devices. */
  lemma OtherDevice(live: map<nat, Device>, devices: map<nat, Lease>, idle: seq<Parked>, free: seq<nat>, use: seq<Use>,
                    ph: nat -> Image, id: nat)
    requires PoolInv(live, devices, idle, free, use, ph) && id in devices
    ensures devices[id].dev in live && live[devices[id].dev].id == id
    ensures forall i | i in devices && i != id :: devices[i].dev != devices[id].dev
  {
  }

  lemma LastIsUsed(use: seq<Use>, free: seq<nat>, idle: seq<Parked>, devices: map<nat, Lease>)
    requires SlotInv(use, free, idle, devices) && free != []
    ensures free[|free| - 1] < |use|
  {
  }

  lemma ParkSlot(live: map<nat, Device>, devices: map<nat, Lease>, idle: seq<Parked>, free: seq<nat>, slot: nat,
                 use: seq<Use>, ph: nat -> Image, d: nat, v: Device)
    requires PoolInv(live, devices, idle, free + [slot], use, ph) && d !in live && slot < |use|
    requires FreshId(live, v.id) && v.made == v.backing == ph(slot)
    ensures PoolInv(live[d := v], devices, idle + [Parked(d, slot)], free, use[slot := Idle(d)], ph)
    ensures LostSlots(use[slot := Idle(d)]) == LostSlots(use)
  {
    hide PoolInv;
    Park(live, devices, idle, free + [slot], use, ph, d, v);
    assert (free + [slot])[..|free|] == free;
  }

  /** The answer to each request. */
  function ReplyTo(low: nat, live: map<nat, Device>, idle: seq<Parked>, shared: map<nat, nat>,
                   devices: map<nat, Lease>, sharing: bool, image: nat -> Image, request: Request, env: Env): Reply {
    match request
    case Acquire(path, wantShared) =>
      AcquireReply(low, live, idle, shared, wantShared && sharing, path, image(path), env)
    case Add(path) => StartReply(live, env.starts, env.id, false, image(path))
    case Release(id) =>
      if id !in devices then Refused(404)
      else Released(if devices[id].refcount > 1 then devices[id].refcount - 1 else 0)
    case Delete(id) =>
      if id !in devices then Refused(404) else if devices[id].shared then Refused(409) else Released(0)
  }

  /** The request takes a lease down without parking its device. */
  predicate Tears(devices: map<nat, Lease>, idle: nat, high: nat, request: Request, env: Env) {
    match request
    case Delete(id) => id in devices && !devices[id].shared
    case Release(id) =>
      id in devices && devices[id].refcount <= 1 && !(devices[id].slot.Some? && idle < high && env.recycles)
    case _ => false
  }

  lemma SlotsSplit(a: seq<Torn>, t: seq<Torn>)
    requires a <= t
    ensures SlotsOf(t) == SlotsOf(a) + SlotsOf(t[|a|..])
  {
    var b := t[|a|..];
    forall x ensures x in SlotsOf(t) <==> x in SlotsOf(a) + SlotsOf(b) {
      if x in SlotsOf(t) {
        var k :| 0 <= k < |t| && t[k].lease.slot.Some? && t[k].lease.slot.value == x;
        assert if k < |a| then a[k] == t[k] else b[k - |a|] == t[k];
      }
      if x in SlotsOf(b) {
        var k :| 0 <= k < |b| && b[k].lease.slot.Some? && b[k].lease.slot.value == x;
        assert t[|a| + k] == b[k];
      }
    }
  }

  lemma NothingLive(live: map<nat, Device>, devices: map<nat, Lease>, idle: seq<Parked>, free: seq<nat>, use: seq<Use>,
                    ph: nat -> Image)
    requires PoolInv(live, devices, idle, free, use, ph) && devices == map[] && idle == []
    ensures live == map[]
  {
    assert forall d :: !Owns(devices, live, d);
    assert forall d :: !IsIdle(idle, d);
    assert live.Keys == {};
  }

  /** A whole life of the daemon: prewarm, any requests, shutdown. Nothing stays behind. */
  method Daemon(low: nat, high: nat, sharing: bool, placeholder: nat -> Image, image: nat -> Image,
                shells: seq<Shell>, requests: seq<Request>, envs: seq<Env>)
    returns (server: UblkdServer)
    requires |envs| == |requests|
    ensures fresh(server) && server.Pool() && server.live == map[]
  {
    hide PoolInv, LostSlots, SlotsOf, LeaseInv, IndexInv;
    server := new UblkdServer(low, high, sharing, placeholder, image);
    server.Refill(shells);
    ghost var whose := server.Serve(requests, envs);
    server.Shutdown();
  }

  // ----- what holds of a server between requests

  /** A live device is leased under its own id or parked, never both, and once. */
  lemma OneOwner(server: UblkdServer, d: nat)
    requires server.Valid() && d in server.live
    ensures (exists id :: id in server.devices && server.devices[id].dev == d) <==> !IsIdle(server.idle, d)
    ensures forall id | id in server.devices && server.devices[id].dev == d :: id == server.live[d].id
    ensures forall i, j | 0 <= i < j < |server.idle| :: server.idle[i].dev != server.idle[j].dev
  {
    assert Owns(server.devices, server.live, d) <==> !IsIdle(server.idle, d);
  }

  /** Slots of parked devices, of pooled leases, of the free list and lost ones are pairwise
      distinct, below the next slot, and all there are below it. */
  lemma EverySlot(server: UblkdServer)
    requires server.Valid()
    ensures |server.free| + |server.idle| + |Pooled(server.devices)| + |server.Lost()| == server.nextSlot
    ensures forall j: nat :: OneClass(server.use, server.free, server.idle, server.devices, j)
  {
    SlotCount(server.live, server.devices, server.idle, server.free, server.use);
    forall j: nat ensures OneClass(server.use, server.free, server.idle, server.devices, j) {
      OnePlace(server.use, server.free, server.idle, server.devices, j);
    }
    hide PoolInv, LostSlots, OneClass;
  }

  // ----- two runs

  const BLANK := Image(512, 2048, false)

  function Blank(slot: nat): Image {
    BLANK
  }

  /** A server with one parked device, on slot 0. */
  method Prewarmed(image: nat -> Image) returns (server: UblkdServer)
    ensures fresh(server) && server.Valid() && server.Lost() == {} && server.devices == map[] && server.free == []
    ensures server.low == 1 && server.placeholder == Blank && server.image == image
    ensures server.idle == [Parked(0, 0)] && server.live == map[0 := Device(7, BLANK, BLANK)]
  {
    hide PoolInv, LeaseInv, IndexInv;
    server := new UblkdServer(1, 1, false, Blank, image);
    assert server.Lost() == {};
    var ok := server.RefillOne(Shell(true, true, 7));
    NoLeases(server.live, image);
  }

  lemma NoLeases(live: map<nat, Device>, image: nat -> Image)
    ensures LeaseInv(live, map[], image)
  {
  }

  /** A run that loses a slot: an image served from the pool and deleted. Nobody has slot 0 any
      more, and it is not free. */
  method LoseASlot(image: nat -> Image, path: nat) returns (server: UblkdServer)
    requires image(path) == BLANK
    ensures fresh(server) && server.Valid() && server.devices == map[] && |server.Lost()| == 1
    ensures forall j | j in server.Lost() :: j !in server.free && j !in IdleSlots(server.idle)
  {
    hide PoolInv, LostSlots, SlotsOf, LeaseInv, IndexInv, Acquired;
    server := Prewarmed(image);
    var r := server.HandleAcquire(path, false, Env(true, true, false, 0, false, []));
    AcquiredAlone(server.devices, server.live, r.id, path, image(path));
    r := server.HandleDelete(r.id);
    LostIsNowhere(server);
  }

  lemma AcquiredAlone(after: map<nat, Lease>, live: map<nat, Device>, id: nat, path: nat, file: Image)
    requires Acquired(map[], after, live, id, path, false, file)
    ensures id in after && !after[id].shared && Without(after, id) == map[]
  {
  }

  lemma LostIsNowhere(server: UblkdServer)
    requires server.Valid()
    ensures forall j | j in server.Lost() :: j !in server.free && j !in IdleSlots(server.idle)
  {
    forall j | j in server.Lost() ensures j !in server.free && j !in IdleSlots(server.idle) {
      OnePlace(server.use, server.free, server.idle, server.devices, j);
    }
  }

  /** A run in which the pool serves a read-only image on a device announced writable. */
  method ServeReadOnly(image: nat -> Image, path: nat) returns (server: UblkdServer, id: nat)
    requires image(path) == BLANK.(readOnly := true)
    ensures fresh(server) && server.Valid() && id in server.devices && server.devices[id].dev in server.live
    ensures !ModeKept(server.live[server.devices[id].dev])
  {
    hide PoolInv, LostSlots, SlotsOf, LeaseInv, IndexInv, Acquired;
    server := Prewarmed(image);
    var r := server.HandleAcquire(path, false, Env(true, true, false, 0, false, []));
    AcquiredAlone(server.devices, server.live, r.id, path, image(path));
    id := r.id;
  }
}
