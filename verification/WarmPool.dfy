/** The daemon's warm pool of pre-created devices, with requests handled one at a time.

Device objects are numbered in the order they are created. A device keeps the capacity it
was announced with; hot-swapping changes only the image behind it. Every outcome of the
environment (a start, an open, a swap, a flush, the kernel's choice of id) is left open.
This module has the pool's invariants and what each move does to them; `PoolServer` has the
handlers.
 */
module WarmPool {
  import opened Collections
  import opened Runs

  datatype Image = Image(blockSize: nat, blocks: nat, readOnly: bool)

  function Sectors(i: Image): nat {
    i.blocks * i.blockSize / 512
  }

  predicate SameCapacity(i: Image, j: Image) {
    i.blockSize == j.blockSize && Sectors(i) == Sectors(j)
  }

  /** `made` is the image it was created on, which fixed the announced capacity;
      `backing` the image behind it now. */
  datatype Device = Device(id: nat, made: Image, backing: Image)

  /** A slot when the device is from the pool. */
  datatype Lease = Lease(dev: nat, path: nat, shared: bool, refcount: int, slot: Option<nat>)

  datatype Parked = Parked(dev: nat, slot: nat)

  /** What a placeholder slot below the high-water number is used for. `Lost` is the slot
      of a pooled device that was torn down instead of parked again. */
  datatype Use = Free | Idle(dev: nat) | Leased(dev: nat) | Lost

  // ----- ownership

  predicate Owns(devices: map<nat, Lease>, live: map<nat, Device>, d: nat) {
    d in live && live[d].id in devices && devices[live[d].id].dev == d
  }

  predicate IsIdle(idle: seq<Parked>, d: nat) {
    exists i :: 0 <= i < |idle| && idle[i].dev == d
  }

  predicate DistinctDevices(idle: seq<Parked>) {
    forall i, j | 0 <= i < j < |idle| :: idle[i].dev != idle[j].dev
  }

  /** Every live device is owned by exactly one of the lease table and the idle pool, once,
      and these own nothing else. */
  ghost predicate OwnInv(live: map<nat, Device>, devices: map<nat, Lease>, idle: seq<Parked>) {
    && DistinctDevices(idle)
    && (forall id | id in devices :: devices[id].dev in live && live[devices[id].dev].id == id)
    && (forall i | 0 <= i < |idle| :: idle[i].dev in live)
    && (forall d | d in live :: Owns(devices, live, d) <==> !IsIdle(idle, d))
    && (forall d, e | d in live && e in live && live[d].id == live[e].id :: d == e)
  }

  lemma IdleAfterRemove(idle: seq<Parked>, i: nat, d: nat)
    requires DistinctDevices(idle) && i < |idle|
    ensures DistinctDevices(RemoveAt(idle, i))
    ensures IsIdle(RemoveAt(idle, i), d) <==> IsIdle(idle, d) && d != idle[i].dev
  {
    var r := RemoveAt(idle, i);
    if IsIdle(idle, d) && d != idle[i].dev {
      var j :| 0 <= j < |idle| && idle[j].dev == d;
      assert r[if j < i then j else j - 1].dev == d;
    }
    if IsIdle(r, d) {
      var j :| 0 <= j < |r| && r[j].dev == d;
      assert idle[if j < i then j else j + 1].dev == d;
    }
  }

  lemma IdleAfterAppend(idle: seq<Parked>, p: Parked, d: nat)
    ensures IsIdle(idle + [p], d) <==> IsIdle(idle, d) || d == p.dev
  {
    var r := idle + [p];
    if IsIdle(idle, d) {
      var j :| 0 <= j < |idle| && idle[j].dev == d;
      assert r[j].dev == d;
    }
    assert r[|idle|] == p;
  }

  /** A new device is parked. */
  lemma OwnPark(live: map<nat, Device>, devices: map<nat, Lease>, idle: seq<Parked>, p: Parked, v: Device)
    requires OwnInv(live, devices, idle) && p.dev !in live
    requires forall d | d in live :: live[d].id != v.id
    ensures OwnInv(live[p.dev := v], devices, idle + [p])
  {
    var live', idle' := live[p.dev := v], idle + [p];
    forall d | d in live' ensures Owns(devices, live', d) <==> !IsIdle(idle', d) {
      IdleAfterAppend(idle, p, d);
    }
  }

  /** A new device is listed. */
  lemma OwnList(live: map<nat, Device>, devices: map<nat, Lease>, idle: seq<Parked>, l: Lease, v: Device)
    requires OwnInv(live, devices, idle) && l.dev !in live
    requires forall d | d in live :: live[d].id != v.id
    ensures OwnInv(live[l.dev := v], devices[v.id := l], idle)
  {
    var live', devices' := live[l.dev := v], devices[v.id := l];
    forall d | d in live' ensures Owns(devices', live', d) <==> !IsIdle(idle, d) {
      assert d != l.dev ==> (Owns(devices', live', d) <==> Owns(devices, live, d));
    }
  }

  /** An idle device moves to the lease table. */
  lemma OwnTake(live: map<nat, Device>, devices: map<nat, Lease>, idle: seq<Parked>, i: nat, l: Lease, v: Device)
    requires OwnInv(live, devices, idle) && i < |idle| && l.dev == idle[i].dev && v.id == live[l.dev].id
    ensures OwnInv(live[l.dev := v], devices[v.id := l], RemoveAt(idle, i))
  {
    var live', devices', idle' := live[l.dev := v], devices[v.id := l], RemoveAt(idle, i);
    forall d | d in live' ensures Owns(devices', live', d) <==> !IsIdle(idle', d) {
      IdleAfterRemove(idle, i, d);
      assert d != l.dev ==> (Owns(devices', live', d) <==> Owns(devices, live, d));
    }
    IdleAfterRemove(idle, i, 0);
    assert IsIdle(idle, l.dev);
  }

  /** A leased device goes back to the pool. */
  lemma OwnReturn(live: map<nat, Device>, devices: map<nat, Lease>, idle: seq<Parked>, id: nat, p: Parked, v: Device)
    requires OwnInv(live, devices, idle) && id in devices && p.dev == devices[id].dev && v.id == id
    ensures OwnInv(live[p.dev := v], Without(devices, id), idle + [p])
  {
    var live', devices', idle' := live[p.dev := v], Without(devices, id), idle + [p];
    assert Owns(devices, live, p.dev);
    forall d | d in live' ensures Owns(devices', live', d) <==> !IsIdle(idle', d) {
      IdleAfterAppend(idle, p, d);
      assert d != p.dev ==> (Owns(devices', live', d) <==> Owns(devices, live, d));
    }
  }

  lemma OwnDropLease(live: map<nat, Device>, devices: map<nat, Lease>, idle: seq<Parked>, id: nat)
    requires OwnInv(live, devices, idle) && id in devices
    ensures OwnInv(Without(live, devices[id].dev), Without(devices, id), idle)
  {
    var x := devices[id].dev;
    var live', devices' := Without(live, x), Without(devices, id);
    assert Owns(devices, live, x);
    forall d | d in live' ensures Owns(devices', live', d) <==> !IsIdle(idle, d) {
      assert Owns(devices', live', d) <==> Owns(devices, live, d);
    }
  }

  lemma OwnDropIdle(live: map<nat, Device>, devices: map<nat, Lease>, idle: seq<Parked>, i: nat)
    requires OwnInv(live, devices, idle) && i < |idle|
    ensures OwnInv(Without(live, idle[i].dev), devices, RemoveAt(idle, i))
  {
    var x := idle[i].dev;
    var live', idle' := Without(live, x), RemoveAt(idle, i);
    assert IsIdle(idle, x);
    forall d | d in live' ensures Owns(devices, live', d) <==> !IsIdle(idle', d) {
      IdleAfterRemove(idle, i, d);
      assert Owns(devices, live', d) <==> Owns(devices, live, d);
    }
    IdleAfterRemove(idle, i, 0);
  }

  lemma OwnRecount(live: map<nat, Device>, devices: map<nat, Lease>, idle: seq<Parked>, id: nat, l: Lease)
    requires OwnInv(live, devices, idle) && id in devices && l.dev == devices[id].dev
    ensures OwnInv(live, devices[id := l], idle)
  {
    var devices' := devices[id := l];
    forall d | d in live ensures Owns(devices', live, d) <==> Owns(devices, live, d) {
    }
  }

  // ----- placeholder slots

  predicate HasLease(devices: map<nat, Lease>, d: nat, slot: nat) {
    exists id :: id in devices && devices[id].dev == d && devices[id].slot == Some(slot)
  }

  /** The recorded use of a slot is its real one. */
  predicate UseTrue(u: Use, slot: nat, free: seq<nat>, idle: seq<Parked>, devices: map<nat, Lease>) {
    match u
    case Free => slot in free
    case Idle(d) => Parked(d, slot) in idle
    case Leased(d) => HasLease(devices, d, slot)
    case Lost => true
  }

  /** Free, idle and leased slots are below the high-water number and each has one use, so no
      two of them are the same; no slot below it is missing without being counted as lost. */
  ghost predicate SlotInv(use: seq<Use>, free: seq<nat>, idle: seq<Parked>, devices: map<nat, Lease>) {
    && Distinct(free)
    && (forall k | 0 <= k < |free| :: free[k] < |use| && use[free[k]] == Free)
    && (forall i | 0 <= i < |idle| :: idle[i].slot < |use| && use[idle[i].slot] == Idle(idle[i].dev))
    && (forall id | id in devices && devices[id].slot.Some? ::
          devices[id].slot.value < |use| && use[devices[id].slot.value] == Leased(devices[id].dev))
    && (forall j | 0 <= j < |use| :: UseTrue(use[j], j, free, idle, devices))
  }

  lemma SlotGrow(use: seq<Use>, free: seq<nat>, idle: seq<Parked>, devices: map<nat, Lease>)
    requires SlotInv(use, free, idle, devices)
    ensures SlotInv(use + [Free], free + [|use|], idle, devices)
  {
    var use', free' := use + [Free], free + [|use|];
    forall j | 0 <= j < |use'| ensures UseTrue(use'[j], j, free', idle, devices) {
      assert j < |use| ==> UseTrue(use[j], j, free, idle, devices);
      assert free'[|free|] == |use|;
    }
  }

  lemma SlotPark(use: seq<Use>, free: seq<nat>, idle: seq<Parked>, devices: map<nat, Lease>, d: nat)
    requires SlotInv(use, free, idle, devices) && |free| > 0
    ensures var slot := free[|free| - 1];
            && slot < |use|
            && SlotInv(use[slot := Idle(d)], free[..|free| - 1], idle + [Parked(d, slot)], devices)
            && LostSlots(use[slot := Idle(d)]) == LostSlots(use)
  {
    var slot := free[|free| - 1];
    var use', free', idle' := use[slot := Idle(d)], free[..|free| - 1], idle + [Parked(d, slot)];
    assert free == free' + [slot];
    assert idle'[|idle|] == Parked(d, slot);
    forall j | 0 <= j < |use'| ensures UseTrue(use'[j], j, free', idle', devices) {
      assert UseTrue(use[j], j, free, idle, devices);
    }
  }

  lemma InRemoveAt(idle: seq<Parked>, i: nat, p: Parked)
    requires i < |idle| && p in idle && p != idle[i]
    ensures p in RemoveAt(idle, i)
  {
    var j :| 0 <= j < |idle| && idle[j] == p;
    assert RemoveAt(idle, i)[if j < i then j else j - 1] == p;
  }

  lemma LeaseStays(devices: map<nat, Lease>, id: nat, l: Lease, d: nat, slot: nat)
    requires id in devices ==>
               devices[id].dev != d || devices[id].slot != Some(slot) || (l.dev == d && l.slot == Some(slot))
    requires HasLease(devices, d, slot)
    ensures HasLease(devices[id := l], d, slot)
  {
    var i :| i in devices && devices[i].dev == d && devices[i].slot == Some(slot);
    var devices' := devices[id := l];
    assert i in devices' && devices'[i].dev == d && devices'[i].slot == Some(slot);
  }

  lemma SlotTake(use: seq<Use>, free: seq<nat>, idle: seq<Parked>, devices: map<nat, Lease>, i: nat, id: nat, l: Lease)
    requires SlotInv(use, free, idle, devices) && DistinctDevices(idle)
    requires i < |idle| && id !in devices && l.dev == idle[i].dev && l.slot == Some(idle[i].slot)
    ensures idle[i].slot < |use|
    ensures SlotInv(use[idle[i].slot := Leased(l.dev)], free, RemoveAt(idle, i), devices[id := l])
    ensures LostSlots(use[idle[i].slot := Leased(l.dev)]) == LostSlots(use)
  {
    var slot := idle[i].slot;
    var use', idle', devices' := use[slot := Leased(l.dev)], RemoveAt(idle, i), devices[id := l];
    assert id in devices' && devices'[id].dev == l.dev && devices'[id].slot == Some(slot);
    forall j | 0 <= j < |use'| ensures UseTrue(use'[j], j, free, idle', devices') {
      assert UseTrue(use[j], j, free, idle, devices);
      if j != slot && use[j].Idle? {
        InRemoveAt(idle, i, Parked(use[j].dev, j));
      }
      if j != slot && use[j].Leased? {
        LeaseStays(devices, id, l, use[j].dev, j);
      }
    }
    SlotOfRest(use, idle, i);
  }

  /** The other idle devices have other slots. */
  lemma SlotOfRest(use: seq<Use>, idle: seq<Parked>, i: nat)
    requires DistinctDevices(idle) && i < |idle|
    requires forall j | 0 <= j < |idle| :: idle[j].slot < |use| && use[idle[j].slot] == Idle(idle[j].dev)
    ensures forall j | 0 <= j < |RemoveAt(idle, i)| ::
              RemoveAt(idle, i)[j].slot < |use| && RemoveAt(idle, i)[j].slot != idle[i].slot
              && use[RemoveAt(idle, i)[j].slot] == Idle(RemoveAt(idle, i)[j].dev)
  {
    var r := RemoveAt(idle, i);
    forall j | 0 <= j < |r|
      ensures r[j].slot < |use| && r[j].slot != idle[i].slot && use[r[j].slot] == Idle(r[j].dev)
    {
      assert r[j] == idle[if j < i then j else j + 1];
    }
  }

  lemma SlotDropIdle(use: seq<Use>, free: seq<nat>, idle: seq<Parked>, devices: map<nat, Lease>, i: nat)
    requires SlotInv(use, free, idle, devices) && DistinctDevices(idle) && i < |idle|
    ensures idle[i].slot < |use|
    ensures SlotInv(use[idle[i].slot := Free], free + [idle[i].slot], RemoveAt(idle, i), devices)
    ensures LostSlots(use[idle[i].slot := Free]) == LostSlots(use)
  {
    var slot := idle[i].slot;
    var use', free', idle' := use[slot := Free], free + [slot], RemoveAt(idle, i);
    assert free'[|free|] == slot;
    forall j | 0 <= j < |use'| ensures UseTrue(use'[j], j, free', idle', devices) {
      assert UseTrue(use[j], j, free, idle, devices);
      if j != slot && use[j].Idle? {
        InRemoveAt(idle, i, Parked(use[j].dev, j));
      }
    }
    SlotOfRest(use, idle, i);
  }

  lemma LeaseLeft(devices: map<nat, Lease>, id: nat, d: nat, slot: nat)
    requires id in devices ==> devices[id].slot != Some(slot)
    requires HasLease(devices, d, slot)
    ensures HasLease(Without(devices, id), d, slot)
  {
    var i :| i in devices && devices[i].dev == d && devices[i].slot == Some(slot);
    var devices' := Without(devices, id);
    assert i in devices' && devices'[i].dev == d && devices'[i].slot == Some(slot);
  }

  /** Two pooled leases of one slot are one lease. */
  predicate OneLease(devices: map<nat, Lease>) {
    forall i, j | i in devices && j in devices && devices[i].dev == devices[j].dev :: i == j
  }

  lemma SlotReturn(use: seq<Use>, free: seq<nat>, idle: seq<Parked>, devices: map<nat, Lease>, id: nat)
    requires SlotInv(use, free, idle, devices) && OneLease(devices)
    requires id in devices && devices[id].slot.Some?
    ensures devices[id].slot.value < |use|
    ensures var l := devices[id];
            && SlotInv(use[l.slot.value := Idle(l.dev)], free, idle + [Parked(l.dev, l.slot.value)],
                  Without(devices, id))
            && LostSlots(use[l.slot.value := Idle(l.dev)]) == LostSlots(use)
  {
    var l := devices[id];
    var slot := l.slot.value;
    var use', idle', devices' := use[slot := Idle(l.dev)], idle + [Parked(l.dev, slot)], Without(devices, id);
    assert idle'[|idle|] == Parked(l.dev, slot);
    forall j | 0 <= j < |use'| ensures UseTrue(use'[j], j, free, idle', devices') {
      assert UseTrue(use[j], j, free, idle, devices);
      if j != slot && use[j].Leased? {
        LeaseLeft(devices, id, use[j].dev, j);
      }
    }
  }

  /** A torn-down lease: a pooled device's slot is not given back. */
  function AfterTeardown(use: seq<Use>, l: Lease): seq<Use>
    requires l.slot.Some? ==> l.slot.value < |use|
  {
    if l.slot.Some? then use[l.slot.value := Lost] else use
  }

  lemma SlotDropLease(use: seq<Use>, free: seq<nat>, idle: seq<Parked>, devices: map<nat, Lease>, id: nat)
    requires SlotInv(use, free, idle, devices) && OneLease(devices) && id in devices
    ensures devices[id].slot.Some? ==> devices[id].slot.value < |use|
    ensures SlotInv(AfterTeardown(use, devices[id]), free, idle, Without(devices, id))
    ensures LostSlots(AfterTeardown(use, devices[id])) == LostSlots(use) + SlotOf(devices[id])
  {
    var use', devices' := AfterTeardown(use, devices[id]), Without(devices, id);
    forall j | 0 <= j < |use'| ensures UseTrue(use'[j], j, free, idle, devices') {
      assert UseTrue(use[j], j, free, idle, devices);
      if use'[j].Leased? {
        LeaseLeft(devices, id, use[j].dev, j);
      }
    }
  }

  lemma SlotLease(use: seq<Use>, free: seq<nat>, idle: seq<Parked>, devices: map<nat, Lease>, id: nat, l: Lease)
    requires SlotInv(use, free, idle, devices)
    requires if id in devices then l.dev == devices[id].dev && l.slot == devices[id].slot else l.slot.None?
    ensures SlotInv(use, free, idle, devices[id := l])
  {
    forall j | 0 <= j < |use| ensures UseTrue(use[j], j, free, idle, devices[id := l]) {
      assert UseTrue(use[j], j, free, idle, devices);
      if use[j].Leased? {
        LeaseStays(devices, id, l, use[j].dev, j);
      }
    }
  }

  // ----- capacity

  /** The image behind a live device has the capacity fixed at creation; for a device of the
      pool that is the capacity of the placeholder it was made on. */
  ghost predicate CapInv(live: map<nat, Device>, devices: map<nat, Lease>, idle: seq<Parked>, ph: nat -> Image) {
    && (forall d | d in live :: SameCapacity(live[d].made, live[d].backing))
    && (forall i | 0 <= i < |idle| :: ParkedOn(live, idle[i].dev, idle[i].slot, ph))
    && (forall id | id in devices && devices[id].slot.Some? ::
          FitsSlot(live, devices[id].dev, devices[id].slot.value, ph))
  }

  /** A parked device has the placeholder it was made on behind it. */
  predicate ParkedOn(live: map<nat, Device>, d: nat, slot: nat, ph: nat -> Image) {
    d in live && live[d].made == live[d].backing == ph(slot)
  }

  predicate FitsSlot(live: map<nat, Device>, d: nat, slot: nat, ph: nat -> Image) {
    d in live && live[d].made == ph(slot)
  }

  /** What the handlers keep, as a property of the server's fields. */
  ghost predicate PoolInv(live: map<nat, Device>, devices: map<nat, Lease>, idle: seq<Parked>, free: seq<nat>,
                          use: seq<Use>, ph: nat -> Image) {
    && OwnInv(live, devices, idle)
    && SlotInv(use, free, idle, devices)
    && CapInv(live, devices, idle, ph)
  }

  lemma OneLeaseEach(live: map<nat, Device>, devices: map<nat, Lease>, idle: seq<Parked>)
    requires OwnInv(live, devices, idle)
    ensures OneLease(devices)
  {
  }

  lemma IdleNotListed(live: map<nat, Device>, devices: map<nat, Lease>, idle: seq<Parked>, i: nat)
    requires OwnInv(live, devices, idle) && i < |idle|
    ensures idle[i].dev in live && live[idle[i].dev].id !in devices
  {
    assert IsIdle(idle, idle[i].dev);
  }

  lemma Park(live: map<nat, Device>, devices: map<nat, Lease>, idle: seq<Parked>, free: seq<nat>, use: seq<Use>,
             ph: nat -> Image, d: nat, v: Device)
    requires PoolInv(live, devices, idle, free, use, ph) && |free| > 0 && d !in live
    requires forall e | e in live :: live[e].id != v.id
    requires v.made == v.backing == ph(free[|free| - 1])
    ensures var slot := free[|free| - 1];
            && slot < |use|
            && PoolInv(live[d := v], devices, idle + [Parked(d, slot)], free[..|free| - 1], use[slot := Idle(d)], ph)
            && LostSlots(use[slot := Idle(d)]) == LostSlots(use)
  {
    var slot := free[|free| - 1];
    SlotPark(use, free, idle, devices, d);
    OwnPark(live, devices, idle, Parked(d, slot), v);
    hide OwnInv, SlotInv;
    CapPark(live, devices, idle, ph, Parked(d, slot), v);
  }

  lemma CapPark(live: map<nat, Device>, devices: map<nat, Lease>, idle: seq<Parked>, ph: nat -> Image,
                p: Parked, v: Device)
    requires CapInv(live, devices, idle, ph) && p.dev !in live && v.made == v.backing == ph(p.slot)
    ensures CapInv(live[p.dev := v], devices, idle + [p], ph)
  {
  }

  lemma List(live: map<nat, Device>, devices: map<nat, Lease>, idle: seq<Parked>, free: seq<nat>, use: seq<Use>,
             ph: nat -> Image, l: Lease, v: Device)
    requires PoolInv(live, devices, idle, free, use, ph) && l.dev !in live && l.slot.None?
    requires forall e | e in live :: live[e].id != v.id
    requires v.made == v.backing
    ensures v.id !in devices
    ensures PoolInv(live[l.dev := v], devices[v.id := l], idle, free, use, ph)
  {
    assert v.id !in devices;
    OwnList(live, devices, idle, l, v);
    SlotLease(use, free, idle, devices, v.id, l);
  }

  lemma Take(live: map<nat, Device>, devices: map<nat, Lease>, idle: seq<Parked>, free: seq<nat>, use: seq<Use>,
             ph: nat -> Image, i: nat, l: Lease, v: Device)
    requires PoolInv(live, devices, idle, free, use, ph) && i < |idle|
    requires l.dev == idle[i].dev && l.slot == Some(idle[i].slot)
    requires l.dev in live ==>
               v.id == live[l.dev].id && v.made == live[l.dev].made && SameCapacity(v.backing, live[l.dev].backing)
    ensures idle[i].slot < |use|
    ensures PoolInv(live[l.dev := v], devices[v.id := l], RemoveAt(idle, i), free,
              use[idle[i].slot := Leased(l.dev)], ph)
    ensures LostSlots(use[idle[i].slot := Leased(l.dev)]) == LostSlots(use)
  {
    IdleNotListed(live, devices, idle, i);
    SlotTake(use, free, idle, devices, i, v.id, l);
    OwnTake(live, devices, idle, i, l, v);
    CapTake(live, devices, idle, ph, i, l, v);
    hide OwnInv, SlotInv, CapInv;
  }

  lemma CapTake(live: map<nat, Device>, devices: map<nat, Lease>, idle: seq<Parked>, ph: nat -> Image, i: nat,
                l: Lease, v: Device)
    requires CapInv(live, devices, idle, ph) && DistinctDevices(idle) && i < |idle|
    requires l.dev == idle[i].dev && l.slot == Some(idle[i].slot)
    requires v.made == live[l.dev].made && SameCapacity(v.backing, live[l.dev].backing)
    ensures CapInv(live[l.dev := v], devices[v.id := l], RemoveAt(idle, i), ph)
  {
    var live', r := live[l.dev := v], RemoveAt(idle, i);
    forall j | 0 <= j < |r| ensures ParkedOn(live', r[j].dev, r[j].slot, ph) {
      assert r[j] == idle[if j < i then j else j + 1];
    }
  }

  lemma DropIdle(live: map<nat, Device>, devices: map<nat, Lease>, idle: seq<Parked>, free: seq<nat>, use: seq<Use>,
                 ph: nat -> Image, i: nat)
    requires PoolInv(live, devices, idle, free, use, ph) && i < |idle|
    ensures idle[i].slot < |use|
    ensures PoolInv(Without(live, idle[i].dev), devices, RemoveAt(idle, i), free + [idle[i].slot],
                    use[idle[i].slot := Free], ph)
    ensures LostSlots(use[idle[i].slot := Free]) == LostSlots(use)
  {
    SlotDropIdle(use, free, idle, devices, i);
    OwnDropIdle(live, devices, idle, i);
    CapDropIdle(live, devices, idle, ph, i);
    hide OwnInv, SlotInv, CapInv;
  }

  lemma CapDropIdle(live: map<nat, Device>, devices: map<nat, Lease>, idle: seq<Parked>, ph: nat -> Image, i: nat)
    requires OwnInv(live, devices, idle) && CapInv(live, devices, idle, ph) && i < |idle|
    ensures CapInv(Without(live, idle[i].dev), devices, RemoveAt(idle, i), ph)
  {
    var live', r := Without(live, idle[i].dev), RemoveAt(idle, i);
    forall j | 0 <= j < |r| ensures ParkedOn(live', r[j].dev, r[j].slot, ph) {
      assert r[j] == idle[if j < i then j else j + 1];
    }
    IdleNotListed(live, devices, idle, i);
    forall id | id in devices && devices[id].slot.Some?
          ensures FitsSlot(live', devices[id].dev, devices[id].slot.value, ph) {
      assert FitsSlot(live, devices[id].dev, devices[id].slot.value, ph);
    }
  }

  lemma Return(live: map<nat, Device>, devices: map<nat, Lease>, idle: seq<Parked>, free: seq<nat>, use: seq<Use>,
               ph: nat -> Image, id: nat, v: Device)
    requires PoolInv(live, devices, idle, free, use, ph) && id in devices && devices[id].slot.Some?
    requires v.id == id && v.backing == ph(devices[id].slot.value)
    requires devices[id].dev in live ==> v.made == live[devices[id].dev].made
    ensures devices[id].slot.value < |use|
    ensures var l := devices[id];
            && PoolInv(live[l.dev := v], Without(devices, id), idle + [Parked(l.dev, l.slot.value)], free,
                       use[l.slot.value := Idle(l.dev)], ph)
            && LostSlots(use[l.slot.value := Idle(l.dev)]) == LostSlots(use)
  {
    OneLeaseEach(live, devices, idle);
    var l := devices[id];
    SlotReturn(use, free, idle, devices, id);
    OwnReturn(live, devices, idle, id, Parked(l.dev, l.slot.value), v);
    hide OwnInv, SlotInv;
    CapReturn(live, devices, idle, ph, id, v);
  }

  lemma CapReturn(live: map<nat, Device>, devices: map<nat, Lease>, idle: seq<Parked>, ph: nat -> Image,
                  id: nat, v: Device)
    requires CapInv(live, devices, idle, ph) && id in devices && devices[id].slot.Some?
    requires v.backing == ph(devices[id].slot.value)
    requires devices[id].dev in live ==> v.made == live[devices[id].dev].made
    ensures CapInv(live[devices[id].dev := v], Without(devices, id), idle + [Parked(devices[id].dev,
              devices[id].slot.value)], ph)
  {
  }

  lemma DropLease(live: map<nat, Device>, devices: map<nat, Lease>, idle: seq<Parked>, free: seq<nat>, use: seq<Use>,
                  ph: nat -> Image, id: nat)
    requires PoolInv(live, devices, idle, free, use, ph) && id in devices
    ensures devices[id].dev in live
    ensures devices[id].slot.Some? ==> devices[id].slot.value < |use|
    ensures PoolInv(Without(live, devices[id].dev), Without(devices, id), idle, free, AfterTeardown(use,
              devices[id]), ph)
    ensures LostSlots(AfterTeardown(use, devices[id])) == LostSlots(use) + SlotOf(devices[id])
  {
    OneLeaseEach(live, devices, idle);
    SlotDropLease(use, free, idle, devices, id);
    OwnDropLease(live, devices, idle, id);
    var x := devices[id].dev;
    assert Owns(devices, live, x);
    forall i | 0 <= i < |idle| ensures idle[i].dev != x {
      assert IsIdle(idle, idle[i].dev);
    }
  }

  lemma Recount(live: map<nat, Device>, devices: map<nat, Lease>, idle: seq<Parked>, free: seq<nat>, use: seq<Use>,
                ph: nat -> Image, id: nat, n: int)
    requires PoolInv(live, devices, idle, free, use, ph) && id in devices
    ensures PoolInv(live, devices[id := devices[id].(refcount := n)], idle, free, use, ph)
  {
    var l := devices[id].(refcount := n);
    OwnRecount(live, devices, idle, id, l);
    SlotLease(use, free, idle, devices, id, l);
  }

  // ----- lost slots

  function LostSlots(use: seq<Use>): set<nat> {
    set j | 0 <= j < |use| && use[j].Lost?
  }

  lemma LostGrow(use: seq<Use>)
    ensures LostSlots(use + [Free]) == LostSlots(use)
  {
    forall j ensures j in LostSlots(use + [Free]) <==> j in LostSlots(use) {
    }
  }

  /** The slot of a pooled lease. */
  function SlotOf(l: Lease): set<nat> {
    if l.slot.Some? then {l.slot.value} else {}
  }

  /** A lease that was torn down, and the device id it was listed under. */
  datatype Torn = Torn(id: nat, lease: Lease)

  function SlotsOf(ts: seq<Torn>): set<nat> {
    set k | 0 <= k < |ts| && ts[k].lease.slot.Some? :: ts[k].lease.slot.value
  }

  lemma SlotsOfPush(ts: seq<Torn>, t: Torn)
    ensures SlotsOf(ts + [t]) == SlotsOf(ts) + SlotOf(t.lease)
  {
    var us := ts + [t];
    forall x ensures x in SlotsOf(us) <==> x in SlotsOf(ts) + SlotOf(t.lease) {
      if x in SlotsOf(ts) {
        var k :| 0 <= k < |ts| && ts[k].lease.slot.Some? && ts[k].lease.slot.value == x;
        assert us[k] == ts[k];
      }
      if x in SlotOf(t.lease) {
        assert us[|ts|] == t;
      }
    }
  }

  // ----- every slot is counted

  function Pooled(devices: map<nat, Lease>): set<nat> {
    set id | id in devices && devices[id].slot.Some?
  }

  function LeasedSlots(devices: map<nat, Lease>, ids: set<nat>): set<nat>
    requires ids <= Pooled(devices)
  {
    set id | id in ids :: devices[id].slot.value
  }

  lemma {:induction false} LeasedCount(devices: map<nat, Lease>, ids: set<nat>)
    requires ids <= Pooled(devices)
    requires forall i, j | i in ids && j in ids && i != j :: devices[i].slot != devices[j].slot
    ensures |LeasedSlots(devices, ids)| == |ids|
  {
    if ids != {} {
      var i :| i in ids;
      var rest := ids - {i};
      LeasedCount(devices, rest);
      assert LeasedSlots(devices, ids) == LeasedSlots(devices, rest) + {devices[i].slot.value};
      assert devices[i].slot.value !in LeasedSlots(devices, rest);
    }
  }

  function IdleSlots(idle: seq<Parked>): seq<nat> {
    seq(|idle|, k requires 0 <= k < |idle| => idle[k].slot)
  }

  lemma ClassOf(use: seq<Use>, free: seq<nat>, idle: seq<Parked>, devices: map<nat, Lease>, j: nat)
    requires SlotInv(use, free, idle, devices) && j < |use|
    ensures use[j].Free? <==> j in free
    ensures use[j].Idle? <==> j in IdleSlots(idle)
    ensures use[j].Leased? <==> j in LeasedSlots(devices, Pooled(devices))
  {
    assert UseTrue(use[j], j, free, idle, devices);
    if use[j].Idle? {
      var k :| 0 <= k < |idle| && idle[k] == Parked(use[j].dev, j);
      assert IdleSlots(idle)[k] == j;
    }
    if use[j].Leased? {
      var id :| id in devices && devices[id].dev == use[j].dev && devices[id].slot == Some(j);
      assert id in Pooled(devices);
    }
  }

  /** Free, parked, leased and lost slots are all the slots ever taken. */
  lemma SlotCount(live: map<nat, Device>, devices: map<nat, Lease>, idle: seq<Parked>, free: seq<nat>, use: seq<Use>)
    requires OwnInv(live, devices, idle) && SlotInv(use, free, idle, devices)
    ensures |free| + |idle| + |Pooled(devices)| + |LostSlots(use)| == |use|
  {
    SlotsDistinct(live, devices, idle, free, use);
    DistinctCount(free);
    DistinctCount(IdleSlots(idle));
    assert |IdleSlots(idle)| == |idle|;
    LeasedCount(devices, Pooled(devices));
    var f, i, l, x := Elements(free), Elements(IdleSlots(idle)), LeasedSlots(devices, Pooled(devices)), LostSlots(use);
    forall j: nat ensures InOne(|use|, f, i, l, x, j) {
      OnePlace(use, free, idle, devices, j);
    }
    hide InOne, SlotInv, OwnInv, IdleSlots, LeasedSlots, LostSlots, Pooled, Distinct;
    FourParts(|use|, f, i, l, x);
  }

  /** A slot below the high-water number has exactly one place, any other none. */
  predicate OneClass(use: seq<Use>, free: seq<nat>, idle: seq<Parked>, devices: map<nat, Lease>, j: nat) {
    InOne(|use|, Elements(free), Elements(IdleSlots(idle)), LeasedSlots(devices, Pooled(devices)), LostSlots(use), j)
  }

  lemma OnePlace(use: seq<Use>, free: seq<nat>, idle: seq<Parked>, devices: map<nat, Lease>, j: nat)
    requires SlotInv(use, free, idle, devices)
    ensures OneClass(use, free, idle, devices, j)
  {
    Somewhere(use, free, idle, devices, j);
    if j < |use| {
      ClassOf(use, free, idle, devices, j);
    }
    hide SlotInv, IdleSlots, LeasedSlots;
  }

  lemma Somewhere(use: seq<Use>, free: seq<nat>, idle: seq<Parked>, devices: map<nat, Lease>, j: nat)
    requires SlotInv(use, free, idle, devices)
    ensures j < |use| <==>
            j in free || j in IdleSlots(idle) || j in LeasedSlots(devices, Pooled(devices)) || j in LostSlots(use)
  {
    if j < |use| {
      ClassOf(use, free, idle, devices, j);
    }
  }

  /** Slots of parked devices, of pooled leases and of the free list are pairwise distinct. */
  lemma SlotsDistinct(live: map<nat, Device>, devices: map<nat, Lease>, idle: seq<Parked>, free: seq<nat>,
                      use: seq<Use>)
    requires OwnInv(live, devices, idle) && SlotInv(use, free, idle, devices)
    ensures Distinct(IdleSlots(idle)) && Distinct(free)
    ensures forall i, j | i in devices && j in devices && i != j && devices[i].slot.Some? ::
              devices[i].slot != devices[j].slot
    ensures forall i, k | 0 <= i < |idle| && 0 <= k < |free| :: idle[i].slot != free[k]
    ensures forall i, id | 0 <= i < |idle| && id in devices :: devices[id].slot != Some(idle[i].slot)
    ensures forall k, id | 0 <= k < |free| && id in devices :: devices[id].slot != Some(free[k])
  {
    OneLeaseEach(live, devices, idle);
    hide OwnInv;
    forall i, j | 0 <= i < j < |idle| ensures idle[i].slot != idle[j].slot {
      DifferentDevices(live, devices, idle, i, j);
    }
    hide DistinctDevices;
  }

  lemma DifferentDevices(live: map<nat, Device>, devices: map<nat, Lease>, idle: seq<Parked>, i: nat, j: nat)
    requires OwnInv(live, devices, idle) && i < j < |idle|
    ensures idle[i].dev != idle[j].dev
  {
  }

  // ----- what a lease stands for

  /** The index holds exactly the shared leases. */
  ghost predicate IndexInv(devices: map<nat, Lease>, shared: map<nat, nat>) {
    && (forall p | p in shared :: shared[p] in devices && devices[shared[p]].shared && devices[shared[p]].path == p)
    && (forall id | id in devices && devices[id].shared ::
          devices[id].path in shared && shared[devices[id].path] == id)
  }

  /** A lease has a holder and its device the image of its path behind it, a read-only one
      when it is shared. */
  predicate LeaseTrue(live: map<nat, Device>, l: Lease, image: nat -> Image) {
    && l.refcount >= 1 && l.dev in live && live[l.dev].backing == image(l.path)
    && (l.shared ==> image(l.path).readOnly)
  }

  ghost predicate LeaseInv(live: map<nat, Device>, devices: map<nat, Lease>, image: nat -> Image) {
    forall id | id in devices :: LeaseTrue(live, devices[id], image)
  }

  /** Other devices come and go. */
  lemma LeasesKept(live: map<nat, Device>, live': map<nat, Device>, devices: map<nat, Lease>, devices': map<nat, Lease>,
                   image: nat -> Image)
    requires LeaseInv(live, devices, image)
    requires forall id | id in devices' && id !in devices :: LeaseTrue(live', devices'[id], image)
    requires forall id | id in devices' && id in devices ::
               devices'[id] == devices[id]
               || (devices'[id].(refcount := devices[id].refcount) == devices[id] && devices'[id].refcount >= 1)
    requires forall id | id in devices' && id in devices && devices[id].dev in live ::
               devices[id].dev in live' && live'[devices[id].dev] == live[devices[id].dev]
    ensures LeaseInv(live', devices', image)
  {
    forall id | id in devices' ensures LeaseTrue(live', devices'[id], image) {
      if id in devices {
        assert LeaseTrue(live, devices[id], image);
      }
    }
  }
}
