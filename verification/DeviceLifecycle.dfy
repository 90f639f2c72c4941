/** The life of a ublk device: `start` with its failure points, and `stop`, `wait`,
`teardown` and the destructor in any order.

Every acquisition and every release of a handle is entered in a ledger, so that
"released exactly once" is a statement about the ledger. The kernel and libublksrv may
refuse any request.
 */
module DeviceLifecycle {

  /** What happened to a resource so far; `Broken` is an acquisition of something already
      had, or a release of something not held. */
  datatype Slot = Never | Held | Released | Abandoned | Broken

  function Acquire(s: Slot): Slot {
    if s.Never? then Held else Broken
  }

  function Release(s: Slot): Slot {
    if s.Held? then Released else Broken
  }

  function Abandon(s: Slot): Slot {
    if s.Held? then Abandoned else Broken
  }

  datatype Ledger = Ledger(image: Slot, target: Slot, ctrl: Slot, dev: Slot, thread: Slot,
                           lock: Slot, swapFd: Slot, service: Slot, config: Slot)
  {
    /** Whatever was acquired has been released, once; a ctrl handle whose DEL is blocked
        is left to process exit. */
    predicate Settled() {
      && Gone(image) && Gone(target) && Gone(dev) && Gone(thread) && Gone(lock)
      && Gone(swapFd) && Gone(service) && Gone(config)
      && (Gone(ctrl) || ctrl.Abandoned?)
    }
  }

  predicate Gone(s: Slot) {
    s.Never? || s.Released?
  }

  /** The ledger of a resource agrees with whether the device holds it. */
  predicate Agrees(s: Slot, held: bool) {
    if held then s.Held? else Gone(s)
  }

  lemma AgreeFacts(s: Slot)
    ensures Agrees(s, true) <==> s == Held
    ensures Agrees(Released, false)
  {
  }

  /** The kernel's device: not there, there, deleted, deletion accepted and pending, or still
      there because it refused to be deleted. */
  datatype Kernel = Absent | Present | Deleted | DeletePending | Refused

  /** What comes of the DEL: accepted asynchronously; otherwise tried synchronously, which
      succeeds, returns an error, or is still blocked after the bounded wait. */
  datatype Del = Async | Done | Failed | Blocked

  function AfterDel(del: Del): Kernel {
    match del
    case Async => DeletePending
    case Done => Deleted
    case Failed => Refused
    case Blocked => DeletePending
  }

  /** How each step of a start comes out: the image lock is taken by somebody else, or needed; the
      image opens; the wakeup channel, the ctrl handle, ADD_DEV, the device, the queue thread's
      initialisation and START_DEV work. */
  datatype Luck = Luck(busy: bool, locked: bool, image: bool, efd: bool, ctrl: bool, add: bool, dev: bool,
                       queue: bool, start: bool)

  predicate Opens(ownsService: bool, service: bool, luck: Luck) {
    service && (ownsService || !luck.busy) && luck.image
  }

  /** The kernel device was added. */
  predicate Adds(ownsService: bool, service: bool, luck: Luck) {
    Opens(ownsService, service, luck) && luck.ctrl && luck.add
  }

  predicate Succeeds(ownsService: bool, service: bool, luck: Luck) {
    Adds(ownsService, service, luck) && luck.dev && luck.queue && luck.start
  }

  class UblkDevice {
    const ownsService: bool       // the CLI path; the daemon shares one service
    const del: Del                // what comes of the one DEL this device sends
    var file: bool                // file_ != nullptr
    var target: bool
    var ctrl: bool
    var dev: bool
    var joinable: bool            // queue_thread_.joinable()
    var queueExited: bool
    var stopRequested: bool
    var tornDown: bool
    var service: bool             // imgservice_ != nullptr
    var configFile: bool          // patched_config_path_ not empty
    var cacheLock: bool           // cache_lock_fd_ >= 0
    var swapFd: bool              // swap_efd_ >= 0
    var devId: int
    var kernel: Kernel
    ghost var dels: nat           // DEL_DEV commands this owner sent
    ghost var ledger: Ledger

    /** Every resource was acquired at most once, and what was acquired is either held or
        was released once. */
    ghost predicate Valid()
      reads this
    {
      && Agrees(ledger.image, file) && Agrees(ledger.target, target)
      && (Agrees(ledger.ctrl, ctrl) || (!ctrl && ledger.ctrl.Abandoned? && kernel.DeletePending?))
      && Agrees(ledger.dev, dev) && Agrees(ledger.thread, joinable)
      && Agrees(ledger.lock, cacheLock) && Agrees(ledger.swapFd, swapFd)
      && Agrees(ledger.service, ownsService && service) && Agrees(ledger.config, configFile)
      && (kernel.Absent? || kernel.Present? ==> dels == 0)
      && (!kernel.Absent? && !kernel.Present? ==> dels == 1 && kernel == AfterDel(del))
      && (dev ==> joinable)
    }

    /** What `stop`, `wait`, `teardown` and the destructor rely on and keep. */
    ghost predicate Started()
      reads this
    {
      && Valid()
      && (ctrl ==> kernel.Present?)
      && (tornDown ==> !ctrl && !file && !target && !service && !configFile)
    }

    /** A device that `start` has not been called on. */
    ghost predicate Unstarted()
      reads this
    {
      && Valid() && !file && !target && !ctrl && !dev && !joinable && !swapFd
      && !queueExited && !stopRequested && !tornDown && (ownsService ==> service)
      && kernel.Absent? && devId == -1
      && ledger.image.Never? && ledger.target.Never? && ledger.ctrl.Never? && ledger.dev.Never?
      && ledger.thread.Never? && ledger.swapFd.Never? && (!ownsService ==> ledger.lock.Never?)
    }

    /** `start` succeeded and nothing has been taken down. */
    ghost predicate Running()
      reads this
    {
      file && target && ctrl && dev && joinable && !tornDown && kernel.Present?
    }

    /** Nothing of a device is left. */
    ghost predicate NothingLeft()
      reads this
    {
      !file && !target && !ctrl && !dev && !joinable && !kernel.Present?
    }

    /** The daemon path injects its service, or has none; the CLI path owns one, with the patched
        config and maybe the instance lock that `init_service` took. */
    constructor (cli: bool, locked: bool, injected: bool, del: Del)
      ensures Unstarted() && ownsService == cli && service == (cli || injected) && dels == 0 && this.del == del
    {
      ownsService, this.del := cli, del;
      file, target, ctrl, dev, joinable := false, false, false, false, false;
      queueExited, stopRequested, tornDown := false, false, false;
      service, configFile, cacheLock, swapFd := cli || injected, cli, cli && locked, false;
      devId, kernel, dels := -1, Absent, 0;
      ledger := Ledger(Never, Never, Never, Never, Never, if cli && locked then Held else Never,
                       Never, if cli then Held else Never, if cli then Held else Never);
    }

    /** ctrl_del_and_deinit: one DEL, and the handle is released unless the synchronous
        fallback is still blocked after its bounded wait. */
    method CtrlDelAndDeinit()
      requires Valid() && ctrl && kernel.Present?
      modifies this`ctrl, this`kernel, this`dels, this`ledger
      ensures Valid() && !ctrl && dels == 1 && kernel == AfterDel(del)
      ensures ledger.dev == old(ledger).dev && ledger.thread == old(ledger).thread
    {
      AgreeFacts(ledger.ctrl);
      hide Agrees;
      dels := dels + 1;
      kernel := AfterDel(del);
      ledger := ledger.(ctrl := if del.Blocked? then Abandon(ledger.ctrl) else Release(ledger.ctrl));
      ctrl := false;
    }

    /** ublksrv_ctrl_deinit. */
    method CtrlDeinit()
      requires Valid() && ctrl
      modifies this`ctrl, this`ledger
      ensures Valid() && !ctrl
      ensures ledger.dev == old(ledger).dev && ledger.thread == old(ledger).thread
    {
      ctrl := false;
      ledger := ledger.(ctrl := Release(ledger.ctrl));
    }

    /** `delete target_; delete file_;` */
    method DropImage()
      requires Valid()
      modifies this`file, this`target, this`ledger
      ensures Valid() && !file && !target
      ensures ledger.dev == old(ledger).dev && ledger.thread == old(ledger).thread
    {
      if target {
        target := false;
        ledger := ledger.(target := Release(ledger.target));
      }
      if file {
        file := false;
        ledger := ledger.(image := Release(ledger.image));
      }
    }

    /** cleanup_failed_start. */
    method CleanupFailedStart(devAdded: bool)
      requires Valid() && !dev && !joinable
      requires devAdded ==> ctrl && kernel.Present?
      requires !devAdded ==> kernel.Absent?
      modifies this`ctrl, this`kernel, this`dels, this`ledger, this`file, this`target, this`devId
      ensures Valid() && NothingLeft() && devId == -1
      ensures ledger.dev == old(ledger).dev && ledger.thread == old(ledger).thread
      ensures kernel == if devAdded then AfterDel(del) else Absent
    {
      if ctrl {
        if devAdded {
          CtrlDelAndDeinit();
        } else {
          CtrlDeinit();
        }
      }
      DropImage();
      devId := -1;
    }

    /** The queue thread is joined and the libublksrv device released. */
    method JoinQueue()
      requires Valid() && joinable && queueExited
      modifies this`joinable, this`dev, this`ledger
      ensures Valid() && !joinable && !dev
    {
      joinable := false;
      ledger := ledger.(thread := Release(ledger.thread));
      if dev {
        dev := false;
        ledger := ledger.(dev := Release(ledger.dev));
      }
    }

    /** The first part of `start`: lock, image and wakeup channel. */
    method OpenImage(luck: Luck) returns (ok: bool)
      requires Unstarted()
      modifies this`file, this`target, this`cacheLock, this`swapFd, this`ledger
      ensures Valid() && file == target == ok == Opens(ownsService, service, luck)
      ensures swapFd == (ok && luck.efd)
      ensures cacheLock == (old(cacheLock) || (service && !ownsService && !luck.busy && luck.locked))
      ensures ledger.ctrl.Never? && ledger.dev.Never? && ledger.thread.Never?
    {
      if !service {
        return false;
      }
      if !ownsService {
        if luck.busy {
          return false;
        }
        if luck.locked {
          cacheLock := true;
          ledger := ledger.(lock := Acquire(ledger.lock));
        }
      }
      if !luck.image {
        return false;
      }
      file, target := true, true;
      ledger := ledger.(image := Acquire(ledger.image), target := Acquire(ledger.target));
      if luck.efd {
        swapFd := true;
        ledger := ledger.(swapFd := Acquire(ledger.swapFd));
      }
      return true;
    }

    /** start. It succeeds exactly when every step does. Whichever step fails, no queue thread,
        device, ctrl handle, image or target remains, and a kernel device that was added is
        deleted or its deletion pending, unless the kernel refused the synchronous DEL. */
    method Start(kernelId: nat, luck: Luck) returns (ret: int)
      requires Unstarted()
      modifies this
      ensures Started() && ret == if Succeeds(ownsService, old(service), luck) then 0 else -1
      ensures ret == 0 ==> Running() && devId == kernelId && !stopRequested
      ensures ret == -1 ==> NothingLeft() && devId == -1 && !ctrl
      ensures ret == -1 ==> kernel == if Adds(ownsService, old(service), luck) then AfterDel(del) else Absent
      ensures ret == 0 ==> service && !queueExited
      ensures !tornDown && service == old(service) && configFile == old(configFile)
    {
      hide Agrees;
      var imageOk := OpenImage(luck);
      if !imageOk {
        return -1;
      }
      var added := AddDevice(kernelId, luck);
      if !added {
        return -1;
      }
      ret := StartQueue(luck);
    }

    /** The ctrl handle and ADD_DEV. */
    method AddDevice(kernelId: nat, luck: Luck) returns (ok: bool)
      requires Valid() && file && target && !ctrl && !dev && !joinable && kernel.Absent?
      requires ledger.ctrl.Never? && ledger.dev.Never? && ledger.thread.Never?
      modifies this`ctrl, this`kernel, this`dels, this`ledger, this`file, this`target, this`devId
      ensures Valid() && ledger.dev.Never? && ledger.thread.Never? && ok == (luck.ctrl && luck.add)
      ensures ok ==> file && target && ctrl && kernel.Present? && devId == kernelId
      ensures !ok ==> NothingLeft() && devId == -1 && kernel.Absent?
    {
      if !luck.ctrl {
        CleanupFailedStart(false);
        return false;
      }
      ctrl := true;
      ledger := ledger.(ctrl := Acquire(ledger.ctrl));
      if !luck.add {
        CleanupFailedStart(false);
        return false;
      }
      kernel := Present;
      devId := kernelId;
      return true;
    }

    /** The second part of `start`: device, queue thread, START_DEV. */
    method StartQueue(luck: Luck) returns (ret: int)
      requires Valid() && file && target && ctrl && !dev && !joinable && kernel.Present? && devId >= 0
      requires ledger.dev.Never? && ledger.thread.Never?
      modifies this`dev, this`joinable, this`queueExited, this`ledger,
               this`ctrl, this`kernel, this`dels, this`file, this`target, this`devId
      ensures Valid() && ret == if luck.dev && luck.queue && luck.start then 0 else -1
      ensures ret == 0 ==> file && target && ctrl && dev && joinable && kernel.Present? && devId == old(devId)
      ensures ret == 0 ==> queueExited == old(queueExited)
      ensures ret == -1 ==> NothingLeft() && devId == -1 && kernel == AfterDel(del)
    {
      if !luck.dev {
        CleanupFailedStart(true);
        return -1;
      }
      dev, joinable := true, true;
      ledger := ledger.(dev := Acquire(ledger.dev), thread := Acquire(ledger.thread));
      if luck.queue && luck.start {
        return 0;
      }
      queueExited := true;
      JoinQueue();
      CleanupFailedStart(true);
      return -1;
    }

    /** stop: only asks; the handles stay. */
    method Stop()
      requires Started()
      modifies this`stopRequested
      ensures Started() && stopRequested
    {
      stopRequested := true;
    }

    /** The queue loop ends, after a stop of ours or of somebody else. */
    method QueueEnds()
      requires Started()
      modifies this`queueExited
      ensures Started() && queueExited == (old(queueExited) || joinable)
    {
      if joinable {
        queueExited := true;
      }
    }

    /** wait, once it returns; a stop may come in while it sleeps. */
    method Wait(stopMeanwhile: bool)
      requires Started()
      modifies this`joinable, this`dev, this`queueExited, this`stopRequested, this`ledger
      ensures Started() && !joinable && !dev
      ensures stopRequested == (old(stopRequested) || (old(joinable) && stopMeanwhile))
      ensures queueExited == (old(queueExited) || old(joinable))
    {
      if !joinable {
        return;
      }
      if stopMeanwhile {
        Stop();
      }
      QueueEnds();
      JoinQueue();
    }

    /** teardown: the kernel device is deleted by its owner, unless the queue ended
        without the owner's asking; then the DEL is left to whoever stopped it. */
    method Teardown()
      requires Started()
      modifies this`tornDown, this`ctrl, this`kernel, this`dels, this`ledger,
               this`file, this`target, this`service, this`configFile
      ensures Started() && tornDown
      ensures dels == old(dels) + (if !old(tornDown) && old(ctrl) && (stopRequested || !queueExited) then 1 else 0)
      ensures kernel == if dels == old(dels) then old(kernel) else AfterDel(del)
    {
      hide Agrees;
      if tornDown {
        return;
      }
      tornDown := true;
      if ctrl {
        if stopRequested || !queueExited {
          CtrlDelAndDeinit();
        } else {
          CtrlDeinit();
        }
      }
      DropImage();
      DropService();
    }

    /** The owned service and the patched config go last. */
    method DropService()
      requires Valid()
      modifies this`service, this`configFile, this`ledger
      ensures Valid() && !service && !configFile
    {
      AgreeFacts(ledger.service);
      AgreeFacts(ledger.config);
      hide Agrees;
      if ownsService && service {
        ledger := ledger.(service := Release(ledger.service));
      }
      service := false;
      if configFile {
        configFile := false;
        ledger := ledger.(config := Release(ledger.config));
      }
    }

    /** ~UblkDevice. */
    method Destroy()
      requires Started()
      modifies this
      ensures Valid() && ledger.Settled()
      ensures kernel == if old(ctrl) && !old(tornDown) then AfterDel(del) else old(kernel)
    {
      Stop();
      Wait(false);
      Teardown();
      CloseFiles();
    }

    /** The descriptors of the lock and of the wakeup channel go last. */
    method CloseFiles()
      requires Valid() && tornDown && !joinable && !dev
      requires !ctrl && !file && !target && !service && !configFile
      modifies this`cacheLock, this`swapFd, this`ledger
      ensures Valid() && ledger.Settled()
    {
      if cacheLock {
        cacheLock := false;
        ledger := ledger.(lock := Release(ledger.lock));
      }
      if swapFd {
        swapFd := false;
        ledger := ledger.(swapFd := Release(ledger.swapFd));
      }
    }

    /** A device stopped from outside: waiting for it and tearing it down releases its
        handles and sends no DEL. */
    method WaitThenTeardown()
      requires Started() && Running() && !stopRequested
      modifies this
      ensures Started() && dels == old(dels) && kernel.Present?
      ensures !ctrl && !file && !target && !dev && !joinable
    {
      QueueEnds();
      Wait(false);
      Teardown();
    }
  }

  datatype Op = DoStop | DoWait(stopMeanwhile: bool) | DoTeardown | QueueStops

  /** What a started device has been through: its queue thread is still joinable, the queue has
      ended, the owner asked for a stop, teardown ran, and it ran after an end the owner had
      not asked for. */
  datatype Life = Life(joinable: bool, ended: bool, asked: bool, torn: bool, kept: bool)

  function Lived(l: Life, op: Op): Life {
    match op
    case DoStop => l.(asked := true)
    case QueueStops => l.(ended := l.ended || l.joinable)
    case DoWait(stopMeanwhile) =>
      if l.joinable then l.(joinable := false, ended := true, asked := l.asked || stopMeanwhile) else l
    case DoTeardown =>
      if l.torn then l else l.(torn := true, kept := l.ended && !l.asked)
  }

  function LifeAfter(ops: seq<Op>): Life {
    if ops == [] then Life(true, false, false, false, false)
    else Lived(LifeAfter(ops[..|ops| - 1]), ops[|ops| - 1])
  }

  /** Any life: start, whatever comes of it, any sequence of stop, wait and teardown with
      the queue ending anywhere, and the destructor. In the end each resource that was
      acquired was released exactly once, or is the one handle left to process exit; the owner
      sent at most one DEL; and a started device is still in the kernel exactly when the
      teardown came after an end that the owner had not asked for, or the kernel refused the
      DEL. */
  method AnyLife(cli: bool, locked: bool, injected: bool, del: Del, kernelId: nat, luck: Luck, ops: seq<Op>)
    returns (d: UblkDevice, ret: int)
    ensures d.ledger.Settled() && d.dels <= 1
    ensures ret == if Succeeds(cli, cli || injected, luck) then 0 else -1
    ensures ret == 0 ==> d.kernel == if LifeAfter(ops).kept then Present else AfterDel(del)
    ensures ret == -1 ==> d.kernel == if Adds(cli, cli || injected, luck) then AfterDel(del) else Absent
  {
    d := new UblkDevice(cli, locked, injected, del);
    ret := d.Start(kernelId, luck);
    var i := 0;
    while i < |ops|
      invariant 0 <= i <= |ops| && d.Started() && d.del == del
      invariant ret == 0 ==> Follows(d, LifeAfter(ops[..i]))
      invariant ret == -1 ==> !d.ctrl && d.kernel == if Adds(cli, cli || injected, luck) then AfterDel(del) else Absent
    {
      assert ops[..i + 1][..i] == ops[..i];
      Do(d, ops[i], LifeAfter(ops[..i]), ret == 0);
      i := i + 1;
    }
    assert ops[..i] == ops;
    d.Destroy();
  }

  /** The device is where its life has brought it. */
  ghost predicate Follows(d: UblkDevice, l: Life)
    reads d
  {
    && d.joinable == l.joinable && d.queueExited == l.ended && d.stopRequested == l.asked && d.tornDown == l.torn
    && d.ctrl == !l.torn && (l.kept ==> l.torn)
    && d.kernel == if l.torn && !l.kept then AfterDel(d.del) else Present
  }

  /** One of the calls. */
  method Do(d: UblkDevice, op: Op, ghost l: Life, ghost started: bool)
    requires d.Started() && (started ==> Follows(d, l)) && (!started ==> !d.ctrl)
    modifies d
    ensures d.Started() && (started ==> Follows(d, Lived(l, op)))
    ensures !started ==> !d.ctrl && d.kernel == old(d.kernel)
  {
    match op {
      case DoStop => d.Stop();
      case DoWait(stopMeanwhile) => d.Wait(stopMeanwhile);
      case DoTeardown => d.Teardown();
      case QueueStops => d.QueueEnds();
    }
  }
}
