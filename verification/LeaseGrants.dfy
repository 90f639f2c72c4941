/** What the daemon's handlers are granted, told from what they asked for: who may share a
device with whom, why a request is refused, and that every request is answered.
 */
module LeaseGrants {
  import opened Collections
  import opened Runs
  import opened LeaseTable

  // ----- requests

  predicate IsRequest(e: Event) {
    e.Add? || e.Acquire? || e.Delete? || e.Release?
  }

  predicate IsLease(e: Event) {
    e.Add? || e.Acquire?
  }

  /** The request of each handler, read off the events. */
  function Requests(run: seq<Event>): map<nat, Event> {
    if run == [] then map[]
    else
      var q, e := Requests(run[..|run| - 1]), run[|run| - 1];
      if IsRequest(e) then q[e.h := e] else q
  }

  type Asked = map<nat, Event>

  /** The request is for a shared device and the daemon shares. */
  predicate Shares(e: Event, sharing: bool) {
    e.Acquire? && e.wantShared && sharing
  }

  predicate SameImage(path: Path, c: nat, d: nat) {
    c in path && d in path && path[c] == path[d]
  }

  /** A handler on a device that another one made asked to share, and so did the other. */
  predicate HandlerOk(path: Path, sharing: bool, q: Asked, h: nat, p: Handler) {
    && h in q
    && (p.Starting? ==> IsLease(q[h]) && p.config == q[h].config && p.shared == Shares(q[h], sharing))
    && (p.Rejecting? ==> Shares(q[h], sharing))
    && (p.Granted? ==>
          && p.dev in q && IsLease(q[h]) && IsLease(q[p.dev]) && SameImage(path, q[h].config, q[p.dev].config)
          && (p.dev != h ==> Shares(q[h], sharing) && Shares(q[p.dev], sharing)))
  }

  predicate MadeAsAsked(sharing: bool, q: Asked, e: Entry) {
    e.dev in q && IsLease(q[e.dev]) && e.config == q[e.dev].config && e.shared == Shares(q[e.dev], sharing)
  }

  predicate GrantInv(s: State, q: Asked) {
    && s.handlers.Keys == q.Keys
    && (forall h | h in s.handlers :: HandlerOk(s.path, s.sharing, q, h, s.handlers[h]))
    && (forall id | id in s.devices :: MadeAsAsked(s.sharing, q, s.devices[id]))
  }

  predicate SameOrigin(e: Entry, f: Entry) {
    e.dev == f.dev && e.config == f.config && e.shared == f.shared
  }

  /** One handler moves, a request may be new, and each entry is one there was or a new one. */
  lemma Carries(s: State, q: Asked, t: State, q': Asked, h: nat)
    requires GrantInv(s, q) && Moves(s, t, h)
    requires q' == (if h in q' then q[h := q'[h]] else q) && (h in s.handlers ==> q' == q)
    requires HandlerOk(s.path, s.sharing, q', h, t.handlers[h])
    requires forall id | id in t.devices ::
               || (id in s.devices && SameOrigin(t.devices[id], s.devices[id]))
               || MadeAsAsked(s.sharing, q', t.devices[id])
    ensures GrantInv(t, q')
  {
    forall g | g in t.handlers ensures HandlerOk(t.path, t.sharing, q', g, t.handlers[g]) {
      if g != h {
        assert HandlerOk(s.path, s.sharing, q, g, s.handlers[g]);
      }
    }
    forall id | id in t.devices ensures MadeAsAsked(t.sharing, q', t.devices[id]) {
      if id in s.devices && SameOrigin(t.devices[id], s.devices[id]) {
        assert MadeAsAsked(s.sharing, q, s.devices[id]);
      }
    }
  }

  function AskedAfter(q: Asked, e: Event): Asked {
    if IsRequest(e) then q[e.h := e] else q
  }

  /** A step moves its own handler, and takes up a handler number exactly for a request. */
  lemma StepMoves(s: State, e: Event)
    requires Step(s, e).Some?
    ensures Moves(s, Step(s, e).value, e.h) && (IsRequest(e) <==> e.h !in s.handlers)
  {
    hide AcquireStep, BeginStart, StartedStep, ReleaseStep, MarkStopping;
  }

  predicate FromBefore(s: State, t: State, id: nat) {
    id in t.devices ==> id in s.devices && SameOrigin(t.devices[id], s.devices[id])
  }

  lemma AcquireEntries(s: State, h: nat, config: nat, image: nat, shared: bool, id: nat)
    ensures FromBefore(s, AcquireStep(s, h, config, image, shared), id)
    ensures FromBefore(s, BeginStart(s, h, config, image, shared), id)
  {
  }

  lemma ReleaseEntries(s: State, h: nat, i: nat, id: nat)
    requires i in s.devices
    ensures FromBefore(s, ReleaseStep(s, h, i), id) && FromBefore(s, MarkStopping(s, h, i), id)
  {
  }

  lemma StartedEntries(s: State, h: nat, image: nat, i: nat, writable: bool, id: nat)
    requires IsStarting(s.handlers, h)
    ensures var t := StartedStep(s, h, s.handlers[h].config, image, s.handlers[h].shared, i, writable);
            FromBefore(s, t, id) || (id in t.devices && MadeBy(s, t, h, id))
  {
  }

  /** The entry is for the device that the handler started. */
  predicate MadeBy(s: State, t: State, h: nat, id: nat)
    requires id in t.devices
  {
    && IsStarting(s.handlers, h) && t.devices[id].dev == h
    && t.devices[id].config == s.handlers[h].config && t.devices[id].shared == s.handlers[h].shared
  }

  /** What an entry after the step comes from. */
  lemma StepEntries(s: State, e: Event, id: nat)
    requires Step(s, e).Some? && id in Step(s, e).value.devices
    ensures FromBefore(s, Step(s, e).value, id) || (e.StartOk? && MadeBy(s, Step(s, e).value, e.h, id))
  {
    hide AcquireStep, BeginStart, StartedStep, ReleaseStep, MarkStopping;
    if IsLease(e) && e.config in s.path {
      AcquireEntries(s, e.h, e.config, s.path[e.config], if e.Add? then false else e.wantShared && s.sharing, id);
    } else if (e.Delete? || e.Release?) && e.id in s.devices {
      ReleaseEntries(s, e.h, e.id, id);
    } else if e.StartOk? {
      StartedEntries(s, e.h, s.path[s.handlers[e.h].config], e.id, e.writable, id);
    }
  }

  /** Add is an acquire that does not share. */
  lemma LeaseStep(s: State, e: Event)
    requires IsLease(e) && e.config in s.path && e.h !in s.handlers
    ensures Step(s, e) == Some(AcquireStep(s, e.h, e.config, s.path[e.config], Shares(e, s.sharing)))
  {
    hide BeginStart;
  }

  lemma AcquireOk(s: State, q: Asked, e: Event)
    requires GrantInv(s, q) && TableInv(s) && IsLease(e) && e.config in s.path
    ensures var t := AcquireStep(s, e.h, e.config, s.path[e.config], Shares(e, s.sharing));
            HandlerOk(s.path, s.sharing, q[e.h := e], e.h, t.handlers[e.h])
  {
    var image := s.path[e.config];
    if Shares(e, s.sharing) && image in s.index {
      IndexHit(s.path, s.devices, s.index, image);
      assert MadeAsAsked(s.sharing, q, s.devices[s.index[image]]);
    }
    hide TableInv, GrantInv;
  }

  lemma NewHandlerOk(s: State, q: Asked, e: Event)
    requires GrantInv(s, q) && TableInv(s) && Step(s, e).Some? && e.h in Step(s, e).value.handlers
    ensures HandlerOk(s.path, s.sharing, AskedAfter(q, e), e.h, Step(s, e).value.handlers[e.h])
  {
    hide TableInv, GrantInv, Step, AcquireStep;
    StepMoves(s, e);
    if e.h in s.handlers {
      hide HandlerOk;
      OldHandlerOk(s, q, e);
    } else if IsLease(e) && e.config in s.path {
      hide HandlerOk;
      LeaseStep(s, e);
      AcquireOk(s, q, e);
    } else {
      TakesNone(s, e);
    }
  }

  /** Any other request takes no lease. */
  lemma TakesNone(s: State, e: Event)
    requires Step(s, e).Some? && e.h !in s.handlers && !(IsLease(e) && e.config in s.path)
    ensures e.h in Step(s, e).value.handlers
    ensures var p := Step(s, e).value.handlers[e.h]; p.Refused? || p.Dropped? || p.Draining?
  {
    hide AcquireStep, BeginStart, StartedStep;
  }

  lemma OldHandlerOk(s: State, q: Asked, e: Event)
    requires GrantInv(s, q) && Step(s, e).Some? && e.h in s.handlers && e.h in Step(s, e).value.handlers
    ensures HandlerOk(s.path, s.sharing, q, e.h, Step(s, e).value.handlers[e.h])
  {
    assert HandlerOk(s.path, s.sharing, q, e.h, s.handlers[e.h]);
    hide GrantInv, AcquireStep, BeginStart, ReleaseStep, MarkStopping;
  }

  lemma StepKeepsGrants(s: State, q: Asked, e: Event)
    requires GrantInv(s, q) && TableInv(s) && Step(s, e).Some?
    ensures GrantInv(Step(s, e).value, AskedAfter(q, e))
  {
    var t, q' := Step(s, e).value, AskedAfter(q, e);
    StepMoves(s, e);
    NewHandlerOk(s, q, e);
    assert e.h in q <==> e.h in s.handlers;
    forall id | id in t.devices
      ensures (id in s.devices && SameOrigin(t.devices[id], s.devices[id])) || MadeAsAsked(s.sharing, q', t.devices[id])
    {
      StepEntries(s, e, id);
      hide Step;
      assert e.h in s.handlers ==> HandlerOk(s.path, s.sharing, q, e.h, s.handlers[e.h]);
    }
    hide Step, TableInv, GrantInv, HandlerOk, MadeAsAsked;
    Carries(s, q, t, q', e.h);
  }

  lemma {:induction false} RunKeepsGrants(path: Path, sharing: bool, run: seq<Event>)
    requires Valid(path, sharing, run)
    ensures GrantInv(After(path, sharing, run), Requests(run))
    ensures After(path, sharing, run).path == path && After(path, sharing, run).sharing == sharing
  {
    if run != [] {
      hide Step, GrantInv, TableInv, LeaseInv;
      var p, e := run[..|run| - 1], run[|run| - 1];
      RunKeepsGrants(path, sharing, p);
      RunKeepsInv(path, sharing, p);
      StepKeepsGrants(After(path, sharing, p), Requests(p), e);
      StepMoves(After(path, sharing, p), e);
    }
  }

  predicate GrantedOn(s: State, h: nat, dev: nat) {
    h in s.handlers && s.handlers[h].Granted? && s.handlers[h].dev == dev
  }

  /** Two handlers ever granted one device both asked to share, with sharing on. One that did not
      has a device of its own, made for it, with an entry that is not shared. What a handler is
      granted has the image it asked for. */
  lemma SharedOnlyIfAsked(path: Path, sharing: bool, run: seq<Event>, h: nat, g: nat, dev: nat)
    requires Valid(path, sharing, run)
    requires GrantedOn(After(path, sharing, run), h, dev) && GrantedOn(After(path, sharing, run), g, dev)
    ensures var s, q := After(path, sharing, run), Requests(run);
            && h in q && dev in q && IsLease(q[h]) && IsLease(q[dev]) && SameImage(path, q[h].config, q[dev].config)
            && (g != h ==> Shares(q[h], sharing) && g in q && Shares(q[g], sharing))
            && (!Shares(q[h], sharing) ==>
                  && dev == h
                  && forall id | id in s.devices && s.devices[id].dev == dev :: !s.devices[id].shared)
  {
    RunKeepsGrants(path, sharing, run);
    var s, q := After(path, sharing, run), Requests(run);
    hide Step, Valid, After, Requests;
    assert HandlerOk(path, sharing, q, h, s.handlers[h]) && HandlerOk(path, sharing, q, g, s.handlers[g]);
    forall id | id in s.devices && s.devices[id].dev == dev ensures MadeAsAsked(sharing, q, s.devices[id]) {
    }
  }

  // ----- the guard against two starts of one image

  ghost predicate BeingStarted(s: State, image: nat) {
    exists g :: StartsImage(s.path, s.handlers, g, image)
  }

  /** An image is guarded only while some handler starts it. */
  ghost predicate GuardInv(s: State) {
    forall image | image in s.inFlight :: BeingStarted(s, image)
  }

  lemma StepGuards(s: State, e: Event, image: nat)
    requires Step(s, e).Some? && image in Step(s, e).value.inFlight
    ensures var t := Step(s, e).value;
            || (StartsImage(s.path, t.handlers, e.h, image) && e.h !in s.handlers)
            || (image in s.inFlight && (IsStarting(s.handlers, e.h) ==> !StartsImage(s.path, s.handlers, e.h, image)))
  {
  }

  lemma StepKeepsGuard(s: State, e: Event)
    requires GuardInv(s) && Step(s, e).Some?
    ensures GuardInv(Step(s, e).value)
  {
    var t := Step(s, e).value;
    StepMoves(s, e);
    forall image | image in t.inFlight ensures BeingStarted(t, image) {
      StepGuards(s, e, image);
      hide Step;
      if StartsImage(s.path, t.handlers, e.h, image) && e.h !in s.handlers {
        assert StartsImage(t.path, t.handlers, e.h, image);
      } else {
        assert BeingStarted(s, image);
        var g :| StartsImage(s.path, s.handlers, g, image);
        assert StartsImage(t.path, t.handlers, g, image);
      }
    }
  }

  lemma {:induction false} RunKeepsGuard(path: Path, sharing: bool, run: seq<Event>)
    requires Valid(path, sharing, run)
    ensures GuardInv(After(path, sharing, run))
  {
    if run != [] {
      hide Step, GuardInv;
      RunKeepsGuard(path, sharing, run[..|run| - 1]);
      StepKeepsGuard(After(path, sharing, run[..|run| - 1]), run[|run| - 1]);
    } else {
      hide Step;
    }
  }

  // ----- why a request is refused or granted

  /** A running shared device of the config's image. */
  predicate Hits(s: State, config: nat, id: nat) {
    config in s.path && SharedDevice(s.path, s.devices, id, s.path[config])
  }

  /** The step answers its handler with this code: an unknown config; another start of the same
      image under way, and no shared device to be had; a start that failed; a writable image
      that was to be shared; a device that is not listed, or is shared, or is going away. */
  ghost predicate Refuses(s: State, e: Event, code: nat) {
    match e
    case Add(_, config) =>
      if config !in s.path then code == 400 else code == 409 && BeingStarted(s, s.path[config])
    case Acquire(_, config, _) =>
      if config !in s.path then code == 400
      else
        code == 409 && BeingStarted(s, s.path[config]) && !(Shares(e, s.sharing) && exists id :: Hits(s, config, id))
    case StartFails(_) => code == 500
    case RejectDone(_) => code == 400
    case Delete(_, id) =>
      if id !in s.devices then code == 404 else code == 409 && (s.devices[id].shared || s.devices[id].stopping)
    case Release(_, id) =>
      if id !in s.devices then code == 404 else code == 409 && s.devices[id].stopping
    case _ => false
  }

  /** The step grants its handler a lease: on the running shared device when it asked to share,
      or on the device it started. */
  predicate GrantsLease(s: State, e: Event, dev: nat, id: nat) {
    match e
    case Acquire(_, config, _) =>
      Shares(e, s.sharing) && Hits(s, config, id) && id in s.devices && dev == s.devices[id].dev
    case StartOk(h, i, writable) =>
      IsStarting(s.handlers, h) && !(s.handlers[h].shared && writable) && i == id && dev == h
    case _ => false
  }

  predicate Is(s: State, h: nat, p: Handler) {
    h in s.handlers && s.handlers[h] == p
  }

  /** What the index and the guard say of an image. */
  lemma TableTells(s: State, config: nat)
    requires TableInv(s) && GuardInv(s) && config in s.path
    ensures s.path[config] in s.inFlight <==> BeingStarted(s, s.path[config])
    ensures s.path[config] in s.index ==> Hits(s, config, s.index[s.path[config]])
    ensures forall id | Hits(s, config, id) :: s.path[config] in s.index && s.index[s.path[config]] == id
  {
    var image := s.path[config];
    if image in s.inFlight {
      assert BeingStarted(s, image);
    }
  }

  /** The answer to a request for a lease. */
  lemma LeaseAnswers(s: State, e: Event)
    requires TableInv(s) && GuardInv(s) && IsLease(e) && e.config in s.path
    ensures var shared := Shares(e, s.sharing);
            var p := AcquireStep(s, e.h, e.config, s.path[e.config], shared).handlers[e.h];
            if exists id :: shared && Hits(s, e.config, id)
            then exists id :: Hits(s, e.config, id) && id in s.devices && p == Granted(s.devices[id].dev, id)
            else p == if BeingStarted(s, s.path[e.config]) then Refused(409) else Starting(e.config, shared)
    ensures forall i, j | Hits(s, e.config, i) && Hits(s, e.config, j) :: i == j
  {
    TableTells(s, e.config);
    hide TableInv, GuardInv, BeingStarted, Hits;
    var image := s.path[e.config];
    if Shares(e, s.sharing) && image in s.index {
      var id := s.index[image];
      assert Hits(s, e.config, id);
      HitIsRunning(s, e.config, id);
    }
  }

  lemma HitIsRunning(s: State, config: nat, id: nat)
    requires Hits(s, config, id)
    ensures id in s.devices && !s.devices[id].stopping
  {
  }

  lemma StepRefuses(s: State, e: Event, code: nat)
    requires TableInv(s) && GuardInv(s) && Step(s, e).Some?
    ensures Is(Step(s, e).value, e.h, Refused(code)) <==> Refuses(s, e, code)
  {
    StepMoves(s, e);
    hide TableInv, GuardInv, BeingStarted, Hits;
    if IsLease(e) && e.config in s.path {
      hide Step, AcquireStep;
      LeaseStep(s, e);
      LeaseAnswers(s, e);
    } else {
      hide AcquireStep, BeginStart;
    }
  }

  lemma StepGrants(s: State, e: Event, dev: nat, id: nat)
    requires TableInv(s) && GuardInv(s) && Step(s, e).Some?
    ensures Is(Step(s, e).value, e.h, Granted(dev, id)) <==> GrantsLease(s, e, dev, id)
  {
    StepMoves(s, e);
    if IsLease(e) && e.config in s.path {
      assert Hits(s, e.config, id) ==> id in s.devices;
      hide Step, AcquireStep, TableInv, GuardInv, BeingStarted, Hits;
      LeaseStep(s, e);
      LeaseAnswers(s, e);
    } else {
      hide AcquireStep, BeginStart, TableInv, GuardInv, BeingStarted, Hits;
    }
  }

  /** An answered handler does nothing more. */
  lemma AnsweredStays(s: State, e: Event, h: nat)
    requires Step(s, e).Some? && h in s.handlers
    requires s.handlers[h].Refused? || s.handlers[h].Granted? || s.handlers[h].Dropped?
    ensures e.h != h && Is(Step(s, e).value, h, s.handlers[h])
  {
    StepMoves(s, e);
    hide AcquireStep, BeginStart, StartedStep, ReleaseStep, MarkStopping;
  }

  ghost predicate RefusedAt(path: Path, sharing: bool, run: seq<Event>, k: nat, h: nat, code: nat) {
    && k < |run| && run[k].h == h && Valid(path, sharing, run[..k])
    && Refuses(After(path, sharing, run[..k]), run[k], code)
  }

  ghost predicate GrantedAt(path: Path, sharing: bool, run: seq<Event>, k: nat, h: nat, dev: nat, id: nat) {
    && k < |run| && run[k].h == h && Valid(path, sharing, run[..k])
    && GrantsLease(After(path, sharing, run[..k]), run[k], dev, id)
  }

  /** Main theorem. In every run a handler has been refused with a code if and only if one of the
      reasons for that code came up for it. */
  lemma {:induction false} RefusedExactly(path: Path, sharing: bool, run: seq<Event>, h: nat, code: nat)
    requires Valid(path, sharing, run)
    ensures Is(After(path, sharing, run), h, Refused(code)) <==>
            exists k: nat :: RefusedAt(path, sharing, run, k, h, code)
  {
    hide Step, Refuses, TableInv, LeaseInv, GuardInv;
    if run != [] {
      var n := |run| - 1;
      var p := run[..n];
      var s := After(path, sharing, p);
      RefusedExactly(path, sharing, p, h, code);
      RunKeepsInv(path, sharing, p);
      RunKeepsGuard(path, sharing, p);
      StepMoves(s, run[n]);
      if Is(s, h, Refused(code)) {
        AnsweredStays(s, run[n], h);
        var k: nat :| RefusedAt(path, sharing, p, k, h, code);
        assert p[..k] == run[..k];
        assert RefusedAt(path, sharing, run, k, h, code);
      } else {
        StepRefuses(s, run[n], code);
        assert RefusedAt(path, sharing, run, n, h, code) <==> run[n].h == h && Refuses(s, run[n], code);
        forall k: nat | k < n ensures !RefusedAt(path, sharing, run, k, h, code) {
          assert p[..k] == run[..k];
          assert !RefusedAt(path, sharing, p, k, h, code);
        }
      }
    }
  }

  /** The same for grants: a request to share gets the running shared device of its image when
      there is one, and every other grant is the device the handler started. */
  lemma {:induction false} GrantedExactly(path: Path, sharing: bool, run: seq<Event>, h: nat, dev: nat, id: nat)
    requires Valid(path, sharing, run)
    ensures Is(After(path, sharing, run), h, Granted(dev, id)) <==>
            exists k: nat :: GrantedAt(path, sharing, run, k, h, dev, id)
  {
    hide Step, GrantsLease, TableInv, LeaseInv, GuardInv;
    if run != [] {
      var n := |run| - 1;
      var p := run[..n];
      var s := After(path, sharing, p);
      GrantedExactly(path, sharing, p, h, dev, id);
      RunKeepsInv(path, sharing, p);
      RunKeepsGuard(path, sharing, p);
      StepMoves(s, run[n]);
      if Is(s, h, Granted(dev, id)) {
        AnsweredStays(s, run[n], h);
        var k: nat :| GrantedAt(path, sharing, p, k, h, dev, id);
        assert p[..k] == run[..k];
        assert GrantedAt(path, sharing, run, k, h, dev, id);
      } else {
        StepGrants(s, run[n], dev, id);
        assert GrantedAt(path, sharing, run, n, h, dev, id) <==> run[n].h == h && GrantsLease(s, run[n], dev, id);
        forall k: nat | k < n ensures !GrantedAt(path, sharing, run, k, h, dev, id) {
          assert p[..k] == run[..k];
          assert !GrantedAt(path, sharing, p, k, h, dev, id);
        }
      }
    }
  }

  // ----- every request is answered

  predicate Answered(p: Handler) {
    p.Granted? || p.Dropped? || p.Refused?
  }

  function Ahead(p: Handler): nat {
    match p
    case Draining(_, _, torn) => if torn then 1 else 2
    case Starting(_, _) => 2
    case Rejecting => 1
    case _ => 0
  }

  /** Any request can be made at any time. */
  lemma AnyRequestTaken(path: Path, sharing: bool, run: seq<Event>, e: Event)
    requires Valid(path, sharing, run) && IsRequest(e) && e.h !in After(path, sharing, run).handlers
    ensures Valid(path, sharing, run + [e]) && e.h in After(path, sharing, run + [e]).handlers
  {
    StepMoves(After(path, sharing, run), e);
    ExecAppend(Step, Init(path, sharing), run, e);
    hide AcquireStep, BeginStart, StartedStep, ReleaseStep, MarkStopping;
  }

  /** What a start comes to when it succeeds. */
  function Started(p: Handler, h: nat, id: nat, writable: bool): Handler
    requires p.Starting?
  {
    if p.shared && writable then Refused(400) else Granted(h, id)
  }

  lemma OneCloser(s: State, h: nat, id: nat, writable: bool) returns (e: Event)
    requires TableInv(s) && h in s.handlers && !Answered(s.handlers[h]) && id !in s.devices
    ensures e.h == h && Step(s, e).Some? && h in Step(s, e).value.handlers
    ensures Ahead(Step(s, e).value.handlers[h]) < Ahead(s.handlers[h])
    ensures s.handlers[h].Starting? ==>
              Step(s, e).value.handlers[h] ==
              if s.handlers[h].shared && writable then Rejecting else Granted(h, id)
    ensures s.handlers[h].Rejecting? ==> Step(s, e).value.handlers[h] == Refused(400)
    ensures !s.handlers[h].Starting? || (s.handlers[h].shared && writable) ==>
              id !in Step(s, e).value.devices
  {
    e := match s.handlers[h]
      case Starting(_, _) => StartOk(h, id, writable)
      case Rejecting => RejectDone(h)
      case Draining(_, _, torn) => if torn then Erase(h) else Teardown(h)
      case _ => Erase(h);
    assert s.handlers[h].Starting? ==> s.handlers[h].config in s.path;
    hide TableInv;
  }

  /** Whatever the other handlers are doing, a request is answered after at most two more steps,
      all its own; a device being started can come up under any free id, and is granted unless it
      is a writable one that was to be shared. */
  lemma {:induction false} EveryRequestAnswered(path: Path, sharing: bool, run: seq<Event>, h: nat, id: nat,
                                                writable: bool)
    returns (ext: seq<Event>)
    requires Valid(path, sharing, run) && h in After(path, sharing, run).handlers
    requires id !in After(path, sharing, run).devices
    ensures Valid(path, sharing, run + ext) && h in After(path, sharing, run + ext).handlers
    ensures Answered(After(path, sharing, run + ext).handlers[h])
    ensures |ext| <= Ahead(After(path, sharing, run).handlers[h]) <= 2 && forall e | e in ext :: e.h == h
    ensures var p := After(path, sharing, run).handlers[h];
            && (p.Starting? ==> After(path, sharing, run + ext).handlers[h] == Started(p, h, id, writable))
            && (p.Rejecting? ==> After(path, sharing, run + ext).handlers[h] == Refused(400))
    decreases Ahead(After(path, sharing, run).handlers[h])
  {
    hide Step, TableInv, LeaseInv;
    var s := After(path, sharing, run);
    if Answered(s.handlers[h]) {
      ext := [];
      assert run + ext == run;
    } else {
      RunKeepsInv(path, sharing, run);
      var e := OneCloser(s, h, id, writable);
      ExecAppend(Step, Init(path, sharing), run, e);
      ext := [e];
      if !Answered(After(path, sharing, run + ext).handlers[h]) {
        hide Valid, After;
        var rest := EveryRequestAnswered(path, sharing, run + ext, h, id, writable);
        assert run + (ext + rest) == run + ext + rest;
        ext := ext + rest;
      }
    }
  }

  /** A start may also fail, and then the image can be started again. */
  lemma StartMayFail(path: Path, sharing: bool, run: seq<Event>, h: nat)
    requires Valid(path, sharing, run) && IsStarting(After(path, sharing, run).handlers, h)
    ensures Valid(path, sharing, run + [StartFails(h)])
    ensures var s, t := After(path, sharing, run), After(path, sharing, run + [StartFails(h)]);
            && Is(t, h, Refused(500)) && t.devices == s.devices
            && s.handlers[h].config in path && !BeingStarted(t, path[s.handlers[h].config])
  {
    RunKeepsInv(path, sharing, run);
    var s := After(path, sharing, run);
    assert s.handlers[h].config in s.path;
    ExecAppend(Step, Init(path, sharing), run, StartFails(h));
    RunKeepsInv(path, sharing, run + [StartFails(h)]);
  }

  /** Once every request has been answered no image is guarded and no device is going away. */
  lemma RestIsClean(path: Path, sharing: bool, run: seq<Event>)
    requires Valid(path, sharing, run)
    requires forall h | h in After(path, sharing, run).handlers :: Answered(After(path, sharing, run).handlers[h])
    ensures After(path, sharing, run).inFlight == {}
    ensures forall id | id in After(path, sharing, run).devices :: !After(path, sharing, run).devices[id].stopping
  {
    var s := After(path, sharing, run);
    RunKeepsInv(path, sharing, run);
    RunKeepsGuard(path, sharing, run);
    hide Step, Valid, After;
    forall image ensures image !in s.inFlight {
    }
  }

  // ----- a device goes when its last lease has been given back

  predicate Running(s: State, d: nat, id: nat) {
    InTable(s.devices, d, id) && !s.devices[id].stopping
  }

  function Held(hs: Handlers, d: nat): int {
    |Grants(hs, d)| - |Drops(hs, d)|
  }

  /** A listed device that is not running has no lease left. */
  ghost predicate SpentInv(s: State) {
    forall d, id | Listed(s.handlers, d, id) && !Running(s, d, id) :: Held(s.handlers, d) == 0
  }

  lemma AcquireTakes(s: State, h: nat, config: nat, image: nat, shared: bool)
    requires TableInv(s) && DevOf(AcquireStep(s, h, config, image, shared).handlers[h]).Some?
    ensures image in s.index
    ensures Running(s, DevOf(AcquireStep(s, h, config, image, shared).handlers[h]).value, s.index[image])
  {
    if image in s.index {
      IndexHit(s.path, s.devices, s.index, image);
    }
    hide TableInv;
  }

  /** A lease is taken or given back only on a running device. */
  lemma StepLeases(s: State, e: Event, d: nat)
    requires Step(s, e).Some? && e.h in Step(s, e).value.handlers && TableInv(s)
    requires DevOf(Step(s, e).value.handlers[e.h]) == Some(d)
    requires !(e.h in s.handlers && DevOf(s.handlers[e.h]).Some?)
    ensures || (e.StartOk? && d == e.h && Running(Step(s, e).value, d, e.id))
            || (IsLease(e) && exists id :: Running(s, d, id))
            || ((e.Release? || e.Delete?) && Running(s, d, e.id))
  {
    hide TableInv;
    StepMoves(s, e);
    if IsLease(e) && e.config in s.path {
      hide Step, AcquireStep;
      LeaseStep(s, e);
      AcquireTakes(s, e.h, e.config, s.path[e.config], Shares(e, s.sharing));
    } else {
      hide BeginStart, AcquireStep;
    }
  }

  /** The draining handler keeps its device until it has answered. */
  lemma StepKeepsDev(s: State, e: Event)
    requires Step(s, e).Some? && e.h in s.handlers && DevOf(s.handlers[e.h]).Some?
    ensures var t := Step(s, e).value;
            && e.h in t.handlers && !s.handlers[e.h].Granted? && !t.handlers[e.h].Granted?
            && DevOf(t.handlers[e.h]) == DevOf(s.handlers[e.h])
  {
    hide AcquireStep, BeginStart, StartedStep, ReleaseStep, MarkStopping;
  }

  lemma AcquireStopsNone(s: State, h: nat, config: nat, image: nat, shared: bool, d: nat, id: nat)
    requires Running(s, d, id)
    ensures Running(AcquireStep(s, h, config, image, shared), d, id)
    ensures Running(BeginStart(s, h, config, image, shared), d, id)
  {
  }

  lemma StartStopsNone(s: State, h: nat, config: nat, image: nat, shared: bool, i: nat, writable: bool, d: nat, id: nat)
    requires Running(s, d, id) && i !in s.devices
    ensures Running(StartedStep(s, h, config, image, shared, i, writable), d, id)
  {
  }

  lemma LastReleaseStops(s: State, h: nat, i: nat, d: nat, id: nat)
    requires Running(s, d, id) && i in s.devices && !s.devices[i].stopping && h !in s.handlers
    requires !Running(ReleaseStep(s, h, i), d, id)
    ensures i == id && ReleaseStep(s, h, i).handlers == s.handlers[h := Draining(id, d, false)]
    ensures s.devices[id].refcount <= 1
  {
  }

  lemma DrainedIsStopping(s: State, h: nat)
    requires DrainInv(s.handlers, s.devices) && IsDraining(s.handlers, h)
    ensures s.handlers[h].id in s.devices && s.devices[s.handlers[h].id].stopping
  {
    assert Drains(s.handlers, h, s.handlers[h].id);
  }

  /** A running device stops by a delete when it is exclusive or by its last release. */
  lemma StepStops(s: State, e: Event, d: nat, id: nat)
    requires Step(s, e).Some? && Running(s, d, id) && !Running(Step(s, e).value, d, id)
    requires DrainInv(s.handlers, s.devices)
    ensures e.h !in s.handlers && Step(s, e).value.handlers == s.handlers[e.h := Draining(id, d, false)]
    ensures s.devices[id].refcount <= 1 || !s.devices[id].shared
  {
    hide AcquireStep, BeginStart, StartedStep, ReleaseStep;
    if IsDraining(s.handlers, e.h) {
      DrainedIsStopping(s, e.h);
    }
    if IsLease(e) && e.config in s.path {
      AcquireStopsNone(s, e.h, e.config, s.path[e.config], if e.Add? then false else e.wantShared && s.sharing, d, id);
    } else if e.StartOk? {
      StartStopsNone(s, e.h, s.handlers[e.h].config, s.path[s.handlers[e.h].config], s.handlers[e.h].shared, e.id,
                     e.writable, d, id);
    } else if e.Release? && e.id in s.devices && !s.devices[e.id].stopping {
      LastReleaseStops(s, e.h, e.id, d, id);
    }
    hide DrainInv;
  }

  lemma ExclusiveHeldOnce(s: State, q: Asked, d: nat, id: nat)
    requires GrantInv(s, q) && CountInv(s.handlers, s.devices) && EntryInv(s.devices) && Running(s, d, id)
    ensures s.devices[id].refcount == Held(s.handlers, d) >= 1
    ensures !s.devices[id].shared ==> Held(s.handlers, d) == 1
  {
    assert InTable(s.devices, d, id);
    if !s.devices[id].shared {
      assert MadeAsAsked(s.sharing, q, s.devices[id]);
      forall h | h in Grants(s.handlers, d) ensures h == d {
        assert HandlerOk(s.path, s.sharing, q, h, s.handlers[h]);
      }
      OneAtMost(Grants(s.handlers, d), d);
    }
  }

  lemma OneAtMost(a: set<nat>, d: nat)
    requires forall h | h in a :: h == d
    ensures |a| <= 1
  {
    assert a <= {d};
    assert {d} == a + ({d} - a);
  }

  lemma HeldMoves(hs: Handlers, h: nat, p: Handler, d: nat)
    requires if h in hs && DevOf(hs[h]).Some? then !hs[h].Granted? && !p.Granted? && DevOf(p) == DevOf(hs[h]) else true
    ensures DevOf(p) != Some(d) || (h in hs && DevOf(hs[h]).Some?) ==> Held(hs[h := p], d) == Held(hs, d)
    ensures p.Draining? && p.dev == d && h !in hs ==> Held(hs[h := p], d) == Held(hs, d) - 1
  {
    hide Grants, Drops;
    GrantsMove(hs, h, p, d);
    DropsMove(hs, h, p, d);
  }

  lemma StepKeepsSpent(s: State, q: Asked, e: Event, d: nat, id: nat)
    requires TableInv(s) && LeaseInv(s) && GrantInv(s, q) && SpentInv(s) && Step(s, e).Some?
    requires Listed(Step(s, e).value.handlers, d, id) && !Running(Step(s, e).value, d, id)
    ensures Held(Step(s, e).value.handlers, d) == 0
  {
    var t := Step(s, e).value;
    StepMoves(s, e);
    var p := t.handlers[e.h];
    if e.h in s.handlers && DevOf(s.handlers[e.h]).Some? {
      StepKeepsDev(s, e);
    } else if DevOf(p).Some? {
      StepLeases(s, e, DevOf(p).value);
    }
    if Running(s, d, id) {
      StepStops(s, e, d, id);
      ExclusiveHeldOnce(s, q, d, id);
      hide Step, TableInv, LeaseInv, GrantInv, SpentInv, Held;
      HeldMoves(s.handlers, e.h, p, d);
    } else {
      hide Step;
      NotRunningElsewhere(s, d, id);
      hide TableInv, LeaseInv, GrantInv, Held;
      HeldMoves(s.handlers, e.h, p, d);
    }
  }

  lemma NotRunningElsewhere(s: State, d: nat, id: nat)
    requires LeaseInv(s) && !Running(s, d, id) && Listed(s.handlers, d, id)
    ensures forall i :: !Running(s, d, i)
  {
    assert forall i | InTable(s.devices, d, i) :: Listed(s.handlers, d, i);
  }

  lemma {:induction false} RunKeepsSpent(path: Path, sharing: bool, run: seq<Event>)
    requires Valid(path, sharing, run)
    ensures SpentInv(After(path, sharing, run))
  {
    hide Step, TableInv, LeaseInv, GrantInv, Held;
    if run != [] {
      var p, e := run[..|run| - 1], run[|run| - 1];
      var s, t := After(path, sharing, p), After(path, sharing, run);
      RunKeepsSpent(path, sharing, p);
      RunKeepsInv(path, sharing, p);
      RunKeepsGrants(path, sharing, p);
      forall d, id | Listed(t.handlers, d, id) && !Running(t, d, id) ensures Held(t.handlers, d) == 0 {
        hide SpentInv;
        StepKeepsSpent(s, Requests(p), e, d, id);
      }
    }
  }

  /** A device that was ever listed runs exactly as long as not all its leases have been given
      back: nobody's device is taken away, and none is left without a holder. */
  lemma RunningIffHeld(path: Path, sharing: bool, run: seq<Event>, d: nat, id: nat)
    requires Valid(path, sharing, run) && Listed(After(path, sharing, run).handlers, d, id)
    ensures var s := After(path, sharing, run);
            && 0 <= Held(s.handlers, d)
            && (Running(s, d, id) <==> Held(s.handlers, d) > 0)
  {
    RunKeepsSpent(path, sharing, run);
    RunKeepsInv(path, sharing, run);
    RunKeepsGrants(path, sharing, run);
    var s := After(path, sharing, run);
    hide Step, Valid, After, Held, GrantInv;
    if Running(s, d, id) {
      ExclusiveHeldOnce(s, Requests(run), d, id);
    }
  }
}
