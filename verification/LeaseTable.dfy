/** The daemon's lease table without a warm pool: add, acquire, release and delete requests
whose handlers yield while a device starts or drains.

Between two yields a handler runs alone, so each such stretch is one event and requests
interleave at the yields. Every request has its own handler number, and a device object
is named after the handler that created it, so a device id that the kernel gives out
again names a different object. Handlers stay in the state after they have answered:
they are the history of the run.
 */
module LeaseTable {
  import opened Collections
  import opened Runs

  predicate MapsTo(path: map<nat, nat>, config: nat, image: nat) {
    config in path && path[config] == image
  }

  datatype Entry = Entry(dev: nat, config: nat, stopping: bool, shared: bool, refcount: int, writable: bool)

  datatype Handler =
    | Starting(config: nat, shared: bool)           // inside start()
    | Rejecting                                     // tearing down a device it may not list
    | Draining(id: nat, dev: nat, torn: bool)       // stop, wait, teardown of a listed device
    | Granted(dev: nat, id: nat)                    // answered: holds a lease on dev
    | Dropped(dev: nat, id: nat)                    // answered: gave a lease on dev back
    | Refused(code: nat)

  /** `path` gives the canonical path of a config, where it has one, and `sharing` the daemon's flag; both are
      fixed. `torn` and `erased` list the device objects torn down and erased so far. */
  datatype State = State(
    path: map<nat, nat>,
    sharing: bool,
    devices: map<nat, Entry>,
    index: map<nat, nat>,
    inFlight: set<nat>,
    handlers: map<nat, Handler>,
    torn: seq<nat>,
    erased: seq<nat>)

  datatype Event =
    | Add(h: nat, config: nat)
    | Acquire(h: nat, config: nat, wantShared: bool)
    | StartFails(h: nat)
    | StartOk(h: nat, id: nat, writable: bool)
    | RejectDone(h: nat)
    | Delete(h: nat, id: nat)
    | Release(h: nat, id: nat)
    | Teardown(h: nat)
    | Erase(h: nat)

  /** The handler's next position. */
  function At(s: State, h: nat, p: Handler): State {
    s.(handlers := s.handlers[h := p])
  }

  /** Only handler `h` has moved, and the configuration is as it was. */
  predicate Moves(s: State, t: State, h: nat) {
    t.path == s.path && t.sharing == s.sharing && h in t.handlers && t.handlers == s.handlers[h := t.handlers[h]]
  }

  function BeginStart(s: State, h: nat, config: nat, image: nat, shared: bool): (t: State)
    ensures Moves(s, t, h)
  {
    if image in s.inFlight then At(s, h, Refused(409))
    else At(s, h, Starting(config, shared)).(inFlight := s.inFlight + {image})
  }

  function AcquireStep(s: State, h: nat, config: nat, image: nat, shared: bool): (t: State)
    ensures Moves(s, t, h)
  {
    if shared && image in s.index then
      var id := s.index[image];
      if id in s.devices && !s.devices[id].stopping then
        var e := s.devices[id];
        At(s, h, Granted(e.dev, id)).(devices := s.devices[id := e.(refcount := e.refcount + 1)])
      else if id in s.devices then At(s, h, Refused(409))
      else BeginStart(s.(index := Without(s.index, image)), h, config, image, shared)
    else BeginStart(s, h, config, image, shared)
  }

  function StartedStep(s: State, h: nat, config: nat, image: nat, shared: bool, id: nat, writable: bool): (t: State)
    ensures Moves(s, t, h)
  {
    var t := s.(inFlight := s.inFlight - {image});
    if shared && writable then At(t, h, Rejecting)
    else
      At(t, h, Granted(h, id)).(
        devices := s.devices[id := Entry(h, config, false, shared, 1, writable)],
        index := if shared then s.index[image := id] else s.index)
  }

  function MarkStopping(s: State, h: nat, id: nat): (t: State)
    requires id in s.devices
    ensures Moves(s, t, h)
  {
    At(s, h, Draining(id, s.devices[id].dev, false)).(devices := s.devices[id := s.devices[id].(stopping := true)])
  }

  function ReleaseStep(s: State, h: nat, id: nat): (t: State)
    requires id in s.devices
    ensures Moves(s, t, h)
  {
    var e := s.devices[id];
    var t := s.(devices := s.devices[id := e.(refcount := e.refcount - 1)]);
    if e.refcount - 1 > 0 then At(t, h, Dropped(e.dev, id))
    else
      MarkStopping(if e.shared && e.config in s.path
                   then t.(index := Without(s.index, s.path[e.config])) else t, h, id)
  }

  function Step(s: State, e: Event): Option<State> {
    match e
    case Add(h, config) =>
      if h in s.handlers then None
      else if config !in s.path then Some(At(s, h, Refused(400)))
      else Some(BeginStart(s, h, config, s.path[config], false))
    case Acquire(h, config, wantShared) =>
      if h in s.handlers then None
      else if config !in s.path then Some(At(s, h, Refused(400)))
      else Some(AcquireStep(s, h, config, s.path[config], wantShared && s.sharing))
    case StartFails(h) =>
      if h !in s.handlers || !s.handlers[h].Starting? || s.handlers[h].config !in s.path then None
      else Some(At(s, h, Refused(500)).(inFlight := s.inFlight - {s.path[s.handlers[h].config]}))
    case StartOk(h, id, writable) =>
      if h !in s.handlers || !s.handlers[h].Starting? || s.handlers[h].config !in s.path || id in s.devices then None
      else
        Some(StartedStep(s, h, s.handlers[h].config, s.path[s.handlers[h].config], s.handlers[h].shared, id, writable))
    case RejectDone(h) =>
      if h !in s.handlers || !s.handlers[h].Rejecting? then None
      else Some(At(s, h, Refused(400)).(torn := s.torn + [h]))
    case Delete(h, id) =>
      if h in s.handlers then None
      else if id !in s.devices then Some(At(s, h, Refused(404)))
      else if s.devices[id].shared || s.devices[id].stopping then Some(At(s, h, Refused(409)))
      else Some(MarkStopping(s, h, id))
    case Release(h, id) =>
      if h in s.handlers then None
      else if id !in s.devices then Some(At(s, h, Refused(404)))
      else if s.devices[id].stopping then Some(At(s, h, Refused(409)))
      else Some(ReleaseStep(s, h, id))
    case Teardown(h) =>
      if h !in s.handlers || !s.handlers[h].Draining? || s.handlers[h].torn then None
      else Some(At(s, h, s.handlers[h].(torn := true)).(torn := s.torn + [s.handlers[h].dev]))
    case Erase(h) =>
      if h !in s.handlers || !s.handlers[h].Draining? || !s.handlers[h].torn then None
      else
        Some(At(s, h, Dropped(s.handlers[h].dev, s.handlers[h].id)).(
               devices := Without(s.devices, s.handlers[h].id),
               erased := s.erased + [s.handlers[h].dev]))
  }

  function Init(path: map<nat, nat>, sharing: bool): State {
    State(path, sharing, map[], map[], {}, map[], [], [])
  }

  predicate Valid(path: map<nat, nat>, sharing: bool, run: seq<Event>) {
    IsRun(Step, Init(path, sharing), run)
  }

  function After(path: map<nat, nat>, sharing: bool, run: seq<Event>): State
    requires Valid(path, sharing, run)
  {
    Exec(Step, Init(path, sharing), run).value
  }

  // ----- requests being started

  type Table = map<nat, Entry>
  type Handlers = map<nat, Handler>
  type Path = map<nat, nat>

  predicate StartsImage(path: Path, hs: Handlers, h: nat, image: nat) {
    h in hs && hs[h].Starting? && MapsTo(path, hs[h].config, image)
  }

  /** Each image is being started by at most one handler, which holds the guard; a shared
      start finds no shared device of its image. */
  ghost predicate StartInv(path: Path, hs: Handlers, inFlight: set<nat>, index: map<nat, nat>) {
    && (forall h | h in hs && hs[h].Starting? :: hs[h].config in path)
    && (forall h, image | StartsImage(path, hs, h, image) :: image in inFlight)
    && (forall h, g, image | StartsImage(path, hs, h, image) && StartsImage(path, hs, g, image) :: h == g)
    && (forall h, image | StartsImage(path, hs, h, image) && hs[h].shared :: image !in index)
  }

  predicate IsStarting(hs: Handlers, h: nat) {
    h in hs && hs[h].Starting?
  }

  lemma StartsElsewhere(path: Path, hs: Handlers, h: nat, p: Handler, g: nat, image: nat)
    ensures StartsImage(path, hs[h := p], g, image) <==>
              if g == h then p.Starting? && MapsTo(path, p.config, image) else StartsImage(path, hs, g, image)
  {
  }

  /** A handler that is not starting anything moves, and the index loses entries at most. */
  lemma StartsQuiet(path: Path, hs: Handlers, inFlight: set<nat>, index: map<nat, nat>, h: nat, p: Handler,
                    index': map<nat, nat>)
    requires StartInv(path, hs, inFlight, index) && index'.Keys <= index.Keys
    requires !IsStarting(hs, h) && !p.Starting?
    ensures StartInv(path, hs[h := p], inFlight, index')
  {
    var hs' := hs[h := p];
    forall g, i ensures StartsImage(path, hs', g, i) <==> StartsImage(path, hs, g, i) {
      StartsElsewhere(path, hs, h, p, g, i);
    }
  }

  lemma StartsBegin(path: Path, hs: Handlers, inFlight: set<nat>, index: map<nat, nat>, h: nat, config: nat,
                    image: nat, shared: bool)
    requires StartInv(path, hs, inFlight, index) && h !in hs
    requires MapsTo(path, config, image) && image !in inFlight && (shared ==> image !in index)
    ensures StartInv(path, hs[h := Starting(config, shared)], inFlight + {image}, index)
  {
    var hs' := hs[h := Starting(config, shared)];
    forall g, i ensures StartsImage(path, hs', g, i) <==> StartsImage(path, hs, g, i) || (g == h && i == image) {
      StartsElsewhere(path, hs, h, Starting(config, shared), g, i);
    }
  }

  /** The guard is dropped; the index may gain this image alone. */
  lemma StartsEnd(path: Path, hs: Handlers, inFlight: set<nat>, index: map<nat, nat>, h: nat, p: Handler,
                  image: nat, index': map<nat, nat>)
    requires StartInv(path, hs, inFlight, index) && StartsImage(path, hs, h, image) && !p.Starting?
    requires index'.Keys <= index.Keys + {image}
    ensures StartInv(path, hs[h := p], inFlight - {image}, index')
  {
    var hs' := hs[h := p];
    forall g, i ensures StartsImage(path, hs', g, i) <==> StartsImage(path, hs, g, i) && g != h {
      StartsElsewhere(path, hs, h, p, g, i);
    }
  }

  // ----- the shared index

  /** A running shared device of the image. */
  predicate SharedDevice(path: Path, devices: Table, id: nat, image: nat) {
    && id in devices && devices[id].shared && !devices[id].stopping
    && MapsTo(path, devices[id].config, image)
  }

  /** The index holds exactly the running shared devices. */
  ghost predicate IndexInv(path: Path, devices: Table, index: map<nat, nat>) {
    && (forall image | image in index :: SharedDevice(path, devices, index[image], image))
    && (forall id, image | SharedDevice(path, devices, id, image) :: image in index && index[image] == id)
    && (forall id | id in devices :: devices[id].config in path)
  }

  /** Only what the index does not look at changes. */
  lemma IndexSame(path: Path, devices: Table, index: map<nat, nat>, id: nat, e: Entry)
    requires IndexInv(path, devices, index) && id in devices
    requires e.config == devices[id].config
    requires (e.shared && !e.stopping) == (devices[id].shared && !devices[id].stopping)
    ensures IndexInv(path, devices[id := e], index)
  {
    var after := devices[id := e];
    forall i, im ensures SharedDevice(path, after, i, im) <==> SharedDevice(path, devices, i, im) {
    }
  }

  lemma IndexInsert(path: Path, devices: Table, index: map<nat, nat>, id: nat, e: Entry, image: nat)
    requires IndexInv(path, devices, index) && id !in devices
    requires MapsTo(path, e.config, image) && !e.stopping && (e.shared ==> image !in index)
    ensures IndexInv(path, devices[id := e], if e.shared then index[image := id] else index)
  {
    var after := devices[id := e];
    forall i, im
      ensures SharedDevice(path, after, i, im) <==>
                SharedDevice(path, devices, i, im) || (i == id && im == image && e.shared)
    {
    }
  }

  lemma IndexRetire(path: Path, devices: Table, index: map<nat, nat>, id: nat, e: Entry, image: nat)
    requires IndexInv(path, devices, index) && SharedDevice(path, devices, id, image)
    requires e.stopping && e.config == devices[id].config
    ensures IndexInv(path, devices[id := e], Without(index, image))
  {
    var after := devices[id := e];
    forall i, im ensures SharedDevice(path, after, i, im) <==> SharedDevice(path, devices, i, im) && i != id {
    }
  }

  lemma IndexErase(path: Path, devices: Table, index: map<nat, nat>, id: nat)
    requires IndexInv(path, devices, index) && id in devices && devices[id].stopping
    ensures IndexInv(path, Without(devices, id), index)
  {
    var after := Without(devices, id);
    forall i, im ensures SharedDevice(path, after, i, im) <==> SharedDevice(path, devices, i, im) {
    }
  }

  // ----- draining

  predicate Drains(hs: Handlers, h: nat, id: nat) {
    h in hs && hs[h].Draining? && hs[h].id == id
  }

  predicate IsDraining(hs: Handlers, h: nat) {
    h in hs && hs[h].Draining?
  }

  /** Each entry marked stopping has exactly one handler draining it, and a handler drains
      only the entry it marked. */
  ghost predicate DrainInv(hs: Handlers, devices: Table) {
    && (forall h, id | Drains(hs, h, id) ::
          id in devices && devices[id].stopping && devices[id].dev == hs[h].dev)
    && (forall h, g, id | Drains(hs, h, id) && Drains(hs, g, id) :: h == g)
    && (forall id | id in devices && devices[id].stopping :: exists h :: Drains(hs, h, id))
  }

  /** Two handler maps with the same draining handlers. */
  lemma DrainsSame(hs: Handlers, hs': Handlers, devices: Table)
    requires DrainInv(hs, devices)
    requires forall h | IsDraining(hs', h) :: IsDraining(hs, h) && hs'[h].id == hs[h].id && hs'[h].dev == hs[h].dev
    requires forall h | IsDraining(hs, h) :: IsDraining(hs', h)
    ensures DrainInv(hs', devices)
  {
    forall h, id ensures Drains(hs', h, id) <==> Drains(hs, h, id) {
      assert IsDraining(hs, h) <==> IsDraining(hs', h);
    }
    forall id | id in devices && devices[id].stopping ensures exists h :: Drains(hs', h, id) {
      var h :| Drains(hs, h, id);
      assert Drains(hs', h, id);
    }
  }

  lemma DrainsQuiet(hs: Handlers, devices: Table, h: nat, p: Handler)
    requires DrainInv(hs, devices) && !IsDraining(hs, h) && !p.Draining?
    ensures DrainInv(hs[h := p], devices)
  {
    DrainsSame(hs, hs[h := p], devices);
  }

  lemma DrainsTorn(hs: Handlers, devices: Table, h: nat)
    requires DrainInv(hs, devices) && IsDraining(hs, h)
    ensures DrainInv(hs[h := hs[h].(torn := true)], devices)
  {
    DrainsSame(hs, hs[h := hs[h].(torn := true)], devices);
  }

  lemma DrainsEntry(hs: Handlers, devices: Table, id: nat, e: Entry)
    requires DrainInv(hs, devices)
    requires !e.stopping && (id in devices ==> !devices[id].stopping)
    ensures DrainInv(hs, devices[id := e])
  {
  }

  lemma DrainsMark(hs: Handlers, devices: Table, h: nat, id: nat, e: Entry)
    requires DrainInv(hs, devices) && h !in hs && id in devices && !devices[id].stopping && e.stopping
    ensures DrainInv(hs[h := Draining(id, e.dev, false)], devices[id := e])
  {
    var hs' := hs[h := Draining(id, e.dev, false)];
    assert forall g, i :: Drains(hs', g, i) <==> Drains(hs, g, i) || (g == h && i == id);
    assert Drains(hs', h, id);
    forall i | i in devices && devices[i].stopping ensures exists g :: Drains(hs', g, i) {
      var g :| Drains(hs, g, i);
      assert Drains(hs', g, i);
    }
  }

  lemma DrainsErase(hs: Handlers, devices: Table, h: nat, p: Handler)
    requires DrainInv(hs, devices) && IsDraining(hs, h) && !p.Draining?
    ensures hs[h].id in devices && devices[hs[h].id].stopping && devices[hs[h].id].dev == hs[h].dev
    ensures DrainInv(hs[h := p], Without(devices, hs[h].id))
  {
    assert Drains(hs, h, hs[h].id);
    var hs' := hs[h := p];
    forall g, i ensures Drains(hs', g, i) <==> Drains(hs, g, i) && g != h {
    }
    forall i | i in devices && devices[i].stopping && i != hs[h].id ensures exists g :: Drains(hs', g, i) {
      var g :| Drains(hs, g, i);
      assert Drains(hs', g, i);
    }
  }

  predicate EntryInv(devices: Table) {
    forall id | id in devices :: EntryOk(devices[id])
  }

  /** The index is right, so the two repair branches of acquire are never taken. */
  lemma IndexHit(path: Path, devices: Table, index: map<nat, nat>, image: nat)
    requires IndexInv(path, devices, index) && image in index
    ensures index[image] in devices && !devices[index[image]].stopping && devices[index[image]].shared
  {
    assert SharedDevice(path, devices, index[image], image);
  }

  predicate EntryOk(e: Entry) {
    (e.shared ==> !e.writable) && (!e.stopping ==> e.refcount >= 1)
  }

  // ----- device objects

  function DevOf(p: Handler): Option<nat> {
    match p
    case Draining(_, dev, _) => Some(dev)
    case Granted(dev, _) => Some(dev)
    case Dropped(dev, _) => Some(dev)
    case _ => None
  }

  /** The device object `d` was listed under `id` by the handler it is named after. */
  predicate Listed(hs: Handlers, d: nat, id: nat) {
    d in hs && hs[d] == Granted(d, id)
  }

  predicate InTable(devices: Table, d: nat, id: nat) {
    id in devices && devices[id].dev == d
  }

  /** An object listed once is in the table until it is erased. */
  ghost predicate ObjectInv(hs: Handlers, devices: Table, erased: seq<nat>) {
    && (forall d, id | InTable(devices, d, id) :: Listed(hs, d, id) && d !in erased)
    && (forall d, id | Listed(hs, d, id) :: InTable(devices, d, id) || d in erased)
    && (forall h | h in hs && DevOf(hs[h]).Some? :: exists id :: Listed(hs, DevOf(hs[h]).value, id))
  }

  /** An object is torn down at most once, by its draining handler or unlisted, and
      erased at most once and only after that. */
  ghost predicate TornInv(hs: Handlers, devices: Table, torn: seq<nat>, erased: seq<nat>) {
    && Distinct(torn) && Distinct(erased)
    && (forall d | d in erased :: d in torn)
    && (forall d | d in torn :: d in hs && (hs[d].Refused? || hs[d].Granted?))
    && (forall id | id in devices && !devices[id].stopping :: devices[id].dev !in torn)
    && (forall h | IsDraining(hs, h) :: hs[h].torn <==> hs[h].dev in torn)
  }

  lemma ObjectQuiet(hs: Handlers, devices: Table, erased: seq<nat>, h: nat, p: Handler)
    requires ObjectInv(hs, devices, erased)
    requires h in hs ==> !hs[h].Granted?
    requires DevOf(p).Some? ==> exists id :: Listed(hs, DevOf(p).value, id)
    requires p.Granted? ==> p.dev != h
    ensures ObjectInv(hs[h := p], devices, erased)
  {
    var hs' := hs[h := p];
    forall d, id ensures Listed(hs', d, id) <==> Listed(hs, d, id) {
    }
    forall g | g in hs' && DevOf(hs'[g]).Some? ensures exists id :: Listed(hs', DevOf(hs'[g]).value, id) {
      var id :| Listed(hs, DevOf(hs'[g]).value, id);
      assert Listed(hs', DevOf(hs'[g]).value, id);
    }
  }

  lemma ObjectSame(hs: Handlers, devices: Table, erased: seq<nat>, id: nat, e: Entry)
    requires ObjectInv(hs, devices, erased) && InTable(devices, e.dev, id)
    ensures ObjectInv(hs, devices[id := e], erased)
  {
    var after := devices[id := e];
    forall d, i ensures InTable(after, d, i) <==> InTable(devices, d, i) {
    }
  }

  lemma ObjectInsert(hs: Handlers, devices: Table, erased: seq<nat>, h: nat, id: nat, e: Entry)
    requires ObjectInv(hs, devices, erased) && h in hs && DevOf(hs[h]).None? && h !in erased
    requires id !in devices && e.dev == h
    ensures ObjectInv(hs[h := Granted(h, id)], devices[id := e], erased)
  {
    var hs', after := hs[h := Granted(h, id)], devices[id := e];
    forall d, i ensures InTable(after, d, i) <==> InTable(devices, d, i) || (d == h && i == id) {
    }
    forall d, i ensures Listed(hs', d, i) <==> Listed(hs, d, i) || (d == h && i == id) {
    }
    forall g | g in hs' && DevOf(hs'[g]).Some? ensures exists i :: Listed(hs', DevOf(hs'[g]).value, i) {
      if g == h {
        assert Listed(hs', h, id);
      } else {
        var i :| Listed(hs, DevOf(hs'[g]).value, i);
        assert Listed(hs', DevOf(hs'[g]).value, i);
      }
    }
  }

  lemma ObjectErase(hs: Handlers, devices: Table, erased: seq<nat>, id: nat)
    requires ObjectInv(hs, devices, erased) && id in devices
    ensures ObjectInv(hs, Without(devices, id), erased + [devices[id].dev])
  {
    var after, dev := Without(devices, id), devices[id].dev;
    assert InTable(devices, dev, id);
    forall d, i ensures InTable(after, d, i) <==> InTable(devices, d, i) && i != id {
    }
  }

  lemma TornQuiet(hs: Handlers, devices: Table, torn: seq<nat>, erased: seq<nat>, h: nat, p: Handler)
    requires TornInv(hs, devices, torn, erased)
    requires h in torn ==> p.Refused? || p.Granted?
    requires p.Draining? ==> (p.torn <==> p.dev in torn)
    ensures TornInv(hs[h := p], devices, torn, erased)
  {
    var hs' := hs[h := p];
    forall g | IsDraining(hs', g) ensures hs'[g].torn <==> hs'[g].dev in torn {
      assert g != h ==> IsDraining(hs, g);
    }
  }

  lemma TornEntry(hs: Handlers, devices: Table, torn: seq<nat>, erased: seq<nat>, id: nat, e: Entry)
    requires TornInv(hs, devices, torn, erased) && (!e.stopping ==> e.dev !in torn)
    ensures TornInv(hs, devices[id := e], torn, erased)
  {
  }

  lemma TornReject(hs: Handlers, devices: Table, torn: seq<nat>, erased: seq<nat>, h: nat, code: nat)
    requires TornInv(hs, devices, torn, erased) && ObjectInv(hs, devices, erased)
    requires h in hs && hs[h].Rejecting?
    ensures TornInv(hs[h := Refused(code)], devices, torn + [h], erased)
  {
    var hs' := hs[h := Refused(code)];
    forall g | IsDraining(hs', g) ensures hs'[g].torn <==> hs'[g].dev in torn + [h] {
      assert IsDraining(hs, g) && DevOf(hs[g]) == Some(hs[g].dev);
    }
    forall id | id in devices && !devices[id].stopping ensures devices[id].dev !in torn + [h] {
      assert InTable(devices, devices[id].dev, id);
    }
  }

  /** An object is drained by one handler. */
  lemma OneDrainer(hs: Handlers, devices: Table, erased: seq<nat>, h: nat, g: nat)
    requires ObjectInv(hs, devices, erased) && DrainInv(hs, devices)
    requires IsDraining(hs, h) && IsDraining(hs, g) && hs[h].dev == hs[g].dev
    ensures g == h
  {
    assert Drains(hs, h, hs[h].id) && InTable(devices, hs[h].dev, hs[h].id);
    assert Drains(hs, g, hs[g].id) && InTable(devices, hs[g].dev, hs[g].id);
    assert Listed(hs, hs[h].dev, hs[h].id) && Listed(hs, hs[h].dev, hs[g].id);
  }

  lemma TornTear(hs: Handlers, devices: Table, torn: seq<nat>, erased: seq<nat>, h: nat)
    requires TornInv(hs, devices, torn, erased) && ObjectInv(hs, devices, erased) && DrainInv(hs, devices)
    requires IsDraining(hs, h) && !hs[h].torn
    ensures TornInv(hs[h := hs[h].(torn := true)], devices, torn + [hs[h].dev], erased)
  {
    var hs', dev := hs[h := hs[h].(torn := true)], hs[h].dev;
    assert Drains(hs, h, hs[h].id) && InTable(devices, dev, hs[h].id);
    assert DevOf(hs[h]) == Some(dev);
    forall g | IsDraining(hs', g) ensures hs'[g].torn <==> hs'[g].dev in torn + [dev] {
      assert IsDraining(hs, g);
      if hs[g].dev == dev {
        OneDrainer(hs, devices, erased, h, g);
      }
    }
    forall id | id in devices && !devices[id].stopping ensures devices[id].dev !in torn + [dev] {
      assert InTable(devices, devices[id].dev, id);
    }
  }

  lemma TornErase(hs: Handlers, devices: Table, torn: seq<nat>, erased: seq<nat>, h: nat)
    requires TornInv(hs, devices, torn, erased) && ObjectInv(hs, devices, erased) && DrainInv(hs, devices)
    requires IsDraining(hs, h) && hs[h].torn
    ensures TornInv(hs, Without(devices, hs[h].id), torn, erased + [hs[h].dev])
  {
    assert Drains(hs, h, hs[h].id) && InTable(devices, hs[h].dev, hs[h].id);
  }

  // ----- reference counts

  function Grants(hs: Handlers, d: nat): set<nat> {
    set h | h in hs && hs[h].Granted? && hs[h].dev == d
  }

  /** Leases given back: released, or being drained by the last release or a delete. */
  function Drops(hs: Handlers, d: nat): set<nat> {
    set h | h in hs && GivesBack(hs[h], d)
  }

  ghost predicate CountInv(hs: Handlers, devices: Table) {
    forall d, id | InTable(devices, d, id) && !devices[id].stopping ::
      devices[id].refcount == |Grants(hs, d)| - |Drops(hs, d)|
  }

  lemma GrantsMove(hs: Handlers, h: nat, p: Handler, d: nat)
    requires h in hs ==> !hs[h].Granted?
    ensures |Grants(hs[h := p], d)| == |Grants(hs, d)| + (if p.Granted? && p.dev == d then 1 else 0)
  {
    hide DevOf;
    assert h !in Grants(hs, d);
    assert Grants(hs[h := p], d) == if p.Granted? && p.dev == d then Grants(hs, d) + {h} else Grants(hs, d);
  }

  predicate GivesBack(p: Handler, d: nat) {
    !p.Granted? && DevOf(p) == Some(d)
  }

  lemma DropsMove(hs: Handlers, h: nat, p: Handler, d: nat)
    requires h in hs && GivesBack(hs[h], d) ==> GivesBack(p, d)
    ensures |Drops(hs[h := p], d)| ==
            |Drops(hs, d)| + (if GivesBack(p, d) && !(h in hs && GivesBack(hs[h], d)) then 1 else 0)
  {
    hide GivesBack;
    if GivesBack(p, d) && !(h in hs && GivesBack(hs[h], d)) {
      assert h !in Drops(hs, d);
      assert Drops(hs[h := p], d) == Drops(hs, d) + {h};
    } else {
      assert Drops(hs[h := p], d) == Drops(hs, d);
    }
  }

  /** The handler moves without taking or giving back a lease. */
  lemma CountQuiet(hs: Handlers, devices: Table, h: nat, p: Handler)
    requires CountInv(hs, devices)
    requires if h in hs && DevOf(hs[h]).Some? then !hs[h].Granted? && !p.Granted? && DevOf(p) == DevOf(hs[h])
             else DevOf(p).None?
    ensures CountInv(hs[h := p], devices)
  {
    hide Grants, Drops;
    var hs' := hs[h := p];
    forall d, id | InTable(devices, d, id) && !devices[id].stopping
      ensures devices[id].refcount == |Grants(hs', d)| - |Drops(hs', d)|
    {
      GrantsMove(hs, h, p, d);
      DropsMove(hs, h, p, d);
    }
  }

  /** A lease of the entry is taken or given back and its count follows, or it stops. */
  lemma CountLease(hs: Handlers, devices: Table, erased: seq<nat>, h: nat, p: Handler, id: nat, e: Entry)
    requires CountInv(hs, devices) && ObjectInv(hs, devices, erased) && h !in hs
    requires InTable(devices, e.dev, id) && !devices[id].stopping && DevOf(p) == Some(e.dev)
    requires !e.stopping ==> e.refcount == devices[id].refcount + (if p.Granted? then 1 else -1)
    ensures CountInv(hs[h := p], devices[id := e])
  {
    hide Grants, Drops;
    var hs', after := hs[h := p], devices[id := e];
    forall d, i | InTable(after, d, i) && !after[i].stopping
      ensures after[i].refcount == |Grants(hs', d)| - |Drops(hs', d)|
    {
      GrantsMove(hs, h, p, d);
      DropsMove(hs, h, p, d);
      assert InTable(devices, d, i);
      assert Listed(hs, d, i) && Listed(hs, e.dev, id);
    }
  }

  lemma NoLeases(hs: Handlers, devices: Table, erased: seq<nat>, h: nat)
    requires ObjectInv(hs, devices, erased) && h in hs && DevOf(hs[h]).None?
    ensures Grants(hs, h) == {} && Drops(hs, h) == {}
  {
    forall g | g in hs && DevOf(hs[g]).Some? ensures DevOf(hs[g]) != Some(h) {
      var id :| Listed(hs, DevOf(hs[g]).value, id);
    }
  }

  lemma CountInsert(hs: Handlers, devices: Table, erased: seq<nat>, h: nat, id: nat, e: Entry)
    requires CountInv(hs, devices) && ObjectInv(hs, devices, erased) && h in hs && DevOf(hs[h]).None?
    requires id !in devices && e.dev == h && e.refcount == 1
    ensures CountInv(hs[h := Granted(h, id)], devices[id := e])
  {
    NoLeases(hs, devices, erased, h);
    var hs', after := hs[h := Granted(h, id)], devices[id := e];
    forall d, i | InTable(after, d, i) && !after[i].stopping
      ensures after[i].refcount == |Grants(hs', d)| - |Drops(hs', d)|
    {
      hide Grants, Drops;
      GrantsMove(hs, h, Granted(h, id), d);
      DropsMove(hs, h, Granted(h, id), d);
      assert i != id ==> InTable(devices, d, i) && Listed(hs, d, i);
    }
  }

  lemma CountErase(hs: Handlers, devices: Table, id: nat)
    requires CountInv(hs, devices)
    ensures CountInv(hs, Without(devices, id))
  {
    var after := Without(devices, id);
    forall d, i | InTable(after, d, i) ensures InTable(devices, d, i) {
    }
  }

  // ----- steps

  /** What every step keeps of the table, the index and the guard. */
  ghost predicate TableInv(s: State) {
    && StartInv(s.path, s.handlers, s.inFlight, s.index)
    && IndexInv(s.path, s.devices, s.index)
    && DrainInv(s.handlers, s.devices)
    && EntryInv(s.devices)
  }

  /** What every step keeps of device objects and their leases. */
  ghost predicate LeaseInv(s: State) {
    && ObjectInv(s.handlers, s.devices, s.erased)
    && TornInv(s.handlers, s.devices, s.torn, s.erased)
    && CountInv(s.handlers, s.devices)
  }

  lemma BeginKeeps(s: State, h: nat, config: nat, image: nat, shared: bool)
    requires TableInv(s) && h !in s.handlers && MapsTo(s.path, config, image) && (shared ==> image !in s.index)
    ensures TableInv(BeginStart(s, h, config, image, shared))
  {
    hide StartInv, IndexInv, DrainInv;
    if image in s.inFlight {
      StartsQuiet(s.path, s.handlers, s.inFlight, s.index, h, Refused(409), s.index);
      DrainsQuiet(s.handlers, s.devices, h, Refused(409));
    } else {
      StartsBegin(s.path, s.handlers, s.inFlight, s.index, h, config, image, shared);
      DrainsQuiet(s.handlers, s.devices, h, Starting(config, shared));
    }
  }

  lemma AcquireKeeps(s: State, h: nat, config: nat, image: nat, shared: bool)
    requires TableInv(s) && h !in s.handlers && MapsTo(s.path, config, image)
    ensures TableInv(AcquireStep(s, h, config, image, shared))
  {
    hide StartInv, IndexInv, DrainInv;
    if shared && image in s.index {
      IndexHit(s.path, s.devices, s.index, image);
      var id := s.index[image];
      var e := s.devices[id];
      StartsQuiet(s.path, s.handlers, s.inFlight, s.index, h, Granted(e.dev, id), s.index);
      DrainsQuiet(s.handlers, s.devices, h, Granted(e.dev, id));
      DrainsEntry(s.handlers[h := Granted(e.dev, id)], s.devices, id, e.(refcount := e.refcount + 1));
      IndexSame(s.path, s.devices, s.index, id, e.(refcount := e.refcount + 1));
    } else {
      BeginKeeps(s, h, config, image, shared);
    }
  }

  lemma StartNotIndexed(s: State, h: nat, image: nat)
    requires TableInv(s) && StartsImage(s.path, s.handlers, h, image)
    ensures s.handlers[h].shared ==> image !in s.index
  {
  }

  lemma StartedKeeps(s: State, h: nat, image: nat, id: nat, writable: bool)
    requires TableInv(s) && StartsImage(s.path, s.handlers, h, image) && id !in s.devices
    ensures TableInv(StartedStep(s, h, s.handlers[h].config, image, s.handlers[h].shared, id, writable))
  {
    StartNotIndexed(s, h, image);
    hide StartInv, IndexInv, DrainInv;
    var p := s.handlers[h];
    if p.shared && writable {
      StartsEnd(s.path, s.handlers, s.inFlight, s.index, h, Rejecting, image, s.index);
      DrainsQuiet(s.handlers, s.devices, h, Rejecting);
    } else {
      var e := Entry(h, p.config, false, p.shared, 1, writable);
      StartsEnd(s.path, s.handlers, s.inFlight, s.index, h, Granted(h, id), image,
                if p.shared then s.index[image := id] else s.index);
      DrainsQuiet(s.handlers, s.devices, h, Granted(h, id));
      DrainsEntry(s.handlers[h := Granted(h, id)], s.devices, id, e);
      IndexInsert(s.path, s.devices, s.index, id, e, image);
    }
  }

  lemma PathKnown(s: State, id: nat)
    requires TableInv(s) && id in s.devices
    ensures s.devices[id].config in s.path
  {
  }

  lemma DeleteKeeps(s: State, h: nat, id: nat)
    requires TableInv(s) && h !in s.handlers && id in s.devices && !s.devices[id].shared && !s.devices[id].stopping
    ensures TableInv(MarkStopping(s, h, id))
  {
    hide StartInv, IndexInv, DrainInv;
    var e := s.devices[id].(stopping := true);
    StartsQuiet(s.path, s.handlers, s.inFlight, s.index, h, Draining(id, e.dev, false), s.index);
    DrainsMark(s.handlers, s.devices, h, id, e);
    IndexSame(s.path, s.devices, s.index, id, e);
  }

  lemma ReleaseKeeps(s: State, h: nat, id: nat)
    requires TableInv(s) && h !in s.handlers && id in s.devices && !s.devices[id].stopping
    ensures TableInv(ReleaseStep(s, h, id))
  {
    var e := s.devices[id];
    if e.refcount - 1 > 0 {
      hide StartInv, IndexInv, DrainInv;
      var e' := e.(refcount := e.refcount - 1);
      StartsQuiet(s.path, s.handlers, s.inFlight, s.index, h, Dropped(e.dev, id), s.index);
      DrainsQuiet(s.handlers, s.devices, h, Dropped(e.dev, id));
      DrainsEntry(s.handlers[h := Dropped(e.dev, id)], s.devices, id, e');
      IndexSame(s.path, s.devices, s.index, id, e');
    } else {
      hide TableInv, ReleaseStep;
      LastReleaseKeeps(s, h, id);
    }
  }

  lemma LastReleaseKeeps(s: State, h: nat, id: nat)
    requires TableInv(s) && h !in s.handlers && id in s.devices && !s.devices[id].stopping
    requires s.devices[id].refcount <= 1
    ensures TableInv(ReleaseStep(s, h, id))
  {
    PathKnown(s, id);
    hide StartInv, IndexInv, DrainInv;
    var e := s.devices[id];
    var e' := e.(refcount := e.refcount - 1, stopping := true);
    var image := s.path[e.config];
    var index' := if e.shared then Without(s.index, image) else s.index;
    StartsQuiet(s.path, s.handlers, s.inFlight, s.index, h, Draining(id, e.dev, false), index');
    DrainsMark(s.handlers, s.devices, h, id, e');
    if e.shared {
      IndexRetire(s.path, s.devices, s.index, id, e', image);
    } else {
      IndexSame(s.path, s.devices, s.index, id, e');
    }
    assert s.devices[id := e.(refcount := e.refcount - 1)][id := e'] == s.devices[id := e'];
  }

  /** Steps that answer at once or finish draining. */
  lemma FinishKeeps(s: State, h: nat, p: Handler)
    requires TableInv(s) && IsDraining(s.handlers, h) && !p.Draining? && !p.Starting?
    ensures TableInv(At(s, h, p).(devices := Without(s.devices, s.handlers[h].id)))
  {
    hide StartInv, IndexInv, DrainInv;
    StartsQuiet(s.path, s.handlers, s.inFlight, s.index, h, p, s.index);
    DrainsErase(s.handlers, s.devices, h, p);
    IndexErase(s.path, s.devices, s.index, s.handlers[h].id);
  }

  lemma QuietKeeps(s: State, h: nat, p: Handler)
    requires TableInv(s) && !IsDraining(s.handlers, h) && !IsStarting(s.handlers, h) && !p.Draining? && !p.Starting?
    ensures TableInv(At(s, h, p))
  {
    hide StartInv, IndexInv, DrainInv;
    StartsQuiet(s.path, s.handlers, s.inFlight, s.index, h, p, s.index);
    DrainsQuiet(s.handlers, s.devices, h, p);
  }

  lemma StepKeepsInv(s: State, e: Event)
    requires TableInv(s) && Step(s, e).Some?
    ensures TableInv(Step(s, e).value)
  {
    hide StartInv, IndexInv, DrainInv, AcquireStep, BeginStart, StartedStep, ReleaseStep, MarkStopping;
    match e
    case Add(h, config) =>
      if config !in s.path { QuietKeeps(s, h, Refused(400)); }
      else { BeginKeeps(s, h, config, s.path[config], false); }
    case Acquire(h, config, wantShared) =>
      if config !in s.path { QuietKeeps(s, h, Refused(400)); }
      else { AcquireKeeps(s, h, config, s.path[config], wantShared && s.sharing); }
    case StartFails(h) =>
      StartsEnd(s.path, s.handlers, s.inFlight, s.index, h, Refused(500), s.path[s.handlers[h].config], s.index);
      DrainsQuiet(s.handlers, s.devices, h, Refused(500));
    case StartOk(h, id, writable) =>
      StartedKeeps(s, h, s.path[s.handlers[h].config], id, writable);
    case RejectDone(h) => QuietKeeps(s, h, Refused(400));
    case Delete(h, id) =>
      if id !in s.devices { QuietKeeps(s, h, Refused(404)); }
      else if s.devices[id].shared || s.devices[id].stopping { QuietKeeps(s, h, Refused(409)); }
      else { DeleteKeeps(s, h, id); }
    case Release(h, id) =>
      if id !in s.devices { QuietKeeps(s, h, Refused(404)); }
      else if s.devices[id].stopping { QuietKeeps(s, h, Refused(409)); }
      else { ReleaseKeeps(s, h, id); }
    case Teardown(h) =>
      StartsQuiet(s.path, s.handlers, s.inFlight, s.index, h, s.handlers[h].(torn := true), s.index);
      DrainsTorn(s.handlers, s.devices, h);
    case Erase(h) => FinishKeeps(s, h, Dropped(s.handlers[h].dev, s.handlers[h].id));
  }

  lemma QuietKeepsLeases(s: State, h: nat, p: Handler, inFlight: set<nat>)
    requires LeaseInv(s) && DevOf(p).None?
    requires h in s.handlers ==> s.handlers[h].Starting?
    ensures LeaseInv(At(s, h, p).(inFlight := inFlight))
  {
    FreshObject(s, h);
    hide ObjectInv, TornInv, CountInv;
    ObjectQuiet(s.handlers, s.devices, s.erased, h, p);
    TornQuiet(s.handlers, s.devices, s.torn, s.erased, h, p);
    CountQuiet(s.handlers, s.devices, h, p);
  }

  /** A handler that has not answered is not the name of a torn or erased object. */
  lemma FreshObject(s: State, h: nat)
    requires LeaseInv(s) && (h in s.handlers ==> !s.handlers[h].Refused? && !s.handlers[h].Granted?)
    ensures h !in s.torn && h !in s.erased
  {
  }

  lemma EntryListed(s: State, id: nat)
    requires LeaseInv(s) && id in s.devices
    ensures Listed(s.handlers, s.devices[id].dev, id)
    ensures !s.devices[id].stopping ==> s.devices[id].dev !in s.torn
  {
    assert InTable(s.devices, s.devices[id].dev, id);
  }

  /** A fresh request takes or gives back a lease, or marks the entry stopping. */
  lemma LeaseKeepsLeases(s: State, h: nat, p: Handler, id: nat, e: Entry, index: map<nat, nat>)
    requires LeaseInv(s) && h !in s.handlers && id in s.devices && !s.devices[id].stopping
    requires e.dev == s.devices[id].dev && DevOf(p) == Some(e.dev) && (p.Draining? ==> !p.torn)
    requires !e.stopping ==> e.refcount == s.devices[id].refcount + (if p.Granted? then 1 else -1)
    ensures LeaseInv(At(s, h, p).(devices := s.devices[id := e], index := index))
  {
    FreshObject(s, h);
    EntryListed(s, id);
    hide ObjectInv, TornInv, CountInv;
    ObjectQuiet(s.handlers, s.devices, s.erased, h, p);
    ObjectSame(s.handlers[h := p], s.devices, s.erased, id, e);
    TornQuiet(s.handlers, s.devices, s.torn, s.erased, h, p);
    TornEntry(s.handlers[h := p], s.devices, s.torn, s.erased, id, e);
    CountLease(s.handlers, s.devices, s.erased, h, p, id, e);
  }

  lemma AcquireKeepsLeases(s: State, h: nat, config: nat, image: nat, shared: bool)
    requires TableInv(s) && LeaseInv(s) && h !in s.handlers
    ensures LeaseInv(AcquireStep(s, h, config, image, shared))
  {
    hide ObjectInv, TornInv, CountInv, StartInv, IndexInv, DrainInv, EntryInv;
    if shared && image in s.index {
      IndexHit(s.path, s.devices, s.index, image);
      var id := s.index[image];
      var e := s.devices[id];
      LeaseKeepsLeases(s, h, Granted(e.dev, id), id, e.(refcount := e.refcount + 1), s.index);
    } else {
      BeginKeepsLeases(s, h, config, image, shared);
    }
  }

  lemma BeginKeepsLeases(s: State, h: nat, config: nat, image: nat, shared: bool)
    requires LeaseInv(s) && h !in s.handlers
    ensures LeaseInv(BeginStart(s, h, config, image, shared))
  {
    hide LeaseInv;
    if image in s.inFlight {
      QuietKeepsLeases(s, h, Refused(409), s.inFlight);
    } else {
      QuietKeepsLeases(s, h, Starting(config, shared), s.inFlight + {image});
    }
  }

  lemma StartedKeepsLeases(s: State, h: nat, image: nat, id: nat, writable: bool)
    requires LeaseInv(s) && IsStarting(s.handlers, h) && id !in s.devices
    ensures LeaseInv(StartedStep(s, h, s.handlers[h].config, image, s.handlers[h].shared, id, writable))
  {
    var p := s.handlers[h];
    if p.shared && writable {
      QuietKeepsLeases(s, h, Rejecting, s.inFlight - {image});
    } else {
      FreshObject(s, h);
      hide ObjectInv, TornInv, CountInv;
      var e := Entry(h, p.config, false, p.shared, 1, writable);
      ObjectInsert(s.handlers, s.devices, s.erased, h, id, e);
      TornQuiet(s.handlers, s.devices, s.torn, s.erased, h, Granted(h, id));
      TornEntry(s.handlers[h := Granted(h, id)], s.devices, s.torn, s.erased, id, e);
      CountInsert(s.handlers, s.devices, s.erased, h, id, e);
    }
  }

  lemma ReleaseKeepsLeases(s: State, h: nat, id: nat)
    requires LeaseInv(s) && h !in s.handlers && id in s.devices && !s.devices[id].stopping
    ensures LeaseInv(ReleaseStep(s, h, id))
  {
    hide LeaseInv;
    var e := s.devices[id];
    if e.refcount - 1 > 0 {
      LeaseKeepsLeases(s, h, Dropped(e.dev, id), id, e.(refcount := e.refcount - 1), s.index);
    } else {
      var e' := e.(refcount := e.refcount - 1, stopping := true);
      LeaseKeepsLeases(s, h, Draining(id, e.dev, false), id, e', ReleaseStep(s, h, id).index);
      assert s.devices[id := e.(refcount := e.refcount - 1)][id := e'] == s.devices[id := e'];
    }
  }

  lemma TeardownKeepsLeases(s: State, h: nat)
    requires TableInv(s) && LeaseInv(s) && IsDraining(s.handlers, h) && !s.handlers[h].torn
    ensures LeaseInv(At(s, h, s.handlers[h].(torn := true)).(torn := s.torn + [s.handlers[h].dev]))
  {
    TornTear(s.handlers, s.devices, s.torn, s.erased, h);
    CountQuiet(s.handlers, s.devices, h, s.handlers[h].(torn := true));
    HasObject(s, h);
    hide ObjectInv, TornInv, CountInv;
    ObjectQuiet(s.handlers, s.devices, s.erased, h, s.handlers[h].(torn := true));
  }

  lemma HasObject(s: State, h: nat)
    requires LeaseInv(s) && h in s.handlers && DevOf(s.handlers[h]).Some?
    ensures exists id :: Listed(s.handlers, DevOf(s.handlers[h]).value, id)
  {
  }

  lemma EraseKeepsLeases(s: State, h: nat)
    requires TableInv(s) && LeaseInv(s) && IsDraining(s.handlers, h) && s.handlers[h].torn
    ensures var p := s.handlers[h];
            LeaseInv(At(s, h, Dropped(p.dev, p.id)).(devices := Without(s.devices, p.id), erased := s.erased + [p.dev]))
  {
    var p := s.handlers[h];
    FreshObject(s, h);
    HasObject(s, h);
    hide ObjectInv, TornInv, CountInv;
    DrainsErase(s.handlers, s.devices, h, Dropped(p.dev, p.id));
    TornErase(s.handlers, s.devices, s.torn, s.erased, h);
    TornQuiet(s.handlers, Without(s.devices, p.id), s.torn, s.erased + [p.dev], h, Dropped(p.dev, p.id));
    ObjectErase(s.handlers, s.devices, s.erased, p.id);
    ObjectQuiet(s.handlers, Without(s.devices, p.id), s.erased + [p.dev], h, Dropped(p.dev, p.id));
    CountErase(s.handlers, s.devices, p.id);
    CountQuiet(s.handlers, Without(s.devices, p.id), h, Dropped(p.dev, p.id));
  }

  lemma RejectKeepsLeases(s: State, h: nat)
    requires LeaseInv(s) && h in s.handlers && s.handlers[h].Rejecting?
    ensures LeaseInv(At(s, h, Refused(400)).(torn := s.torn + [h]))
  {
    hide ObjectInv, TornInv, CountInv;
    ObjectQuiet(s.handlers, s.devices, s.erased, h, Refused(400));
    TornReject(s.handlers, s.devices, s.torn, s.erased, h, 400);
    CountQuiet(s.handlers, s.devices, h, Refused(400));
  }

  lemma StepKeepsLeases(s: State, e: Event)
    requires TableInv(s) && LeaseInv(s) && Step(s, e).Some?
    ensures LeaseInv(Step(s, e).value)
  {
    hide TableInv, LeaseInv, AcquireStep, BeginStart, StartedStep, ReleaseStep;
    match e
    case Add(h, config) =>
      if config !in s.path { QuietKeepsLeases(s, h, Refused(400), s.inFlight); }
      else { BeginKeepsLeases(s, h, config, s.path[config], false); }
    case Acquire(h, config, wantShared) =>
      if config !in s.path { QuietKeepsLeases(s, h, Refused(400), s.inFlight); }
      else { AcquireKeepsLeases(s, h, config, s.path[config], wantShared && s.sharing); }
    case StartFails(h) =>
      QuietKeepsLeases(s, h, Refused(500), s.inFlight - {s.path[s.handlers[h].config]});
    case StartOk(h, id, writable) =>
      StartedKeepsLeases(s, h, s.path[s.handlers[h].config], id, writable);
    case RejectDone(h) => RejectKeepsLeases(s, h);
    case Delete(h, id) =>
      if id !in s.devices { QuietKeepsLeases(s, h, Refused(404), s.inFlight); }
      else if s.devices[id].shared || s.devices[id].stopping { QuietKeepsLeases(s, h, Refused(409), s.inFlight); }
      else { LeaseKeepsLeases(s, h, Draining(id, s.devices[id].dev, false), id, s.devices[id].(stopping := true),
          s.index); }
    case Release(h, id) =>
      if id !in s.devices { QuietKeepsLeases(s, h, Refused(404), s.inFlight); }
      else if s.devices[id].stopping { QuietKeepsLeases(s, h, Refused(409), s.inFlight); }
      else { ReleaseKeepsLeases(s, h, id); }
    case Teardown(h) => TeardownKeepsLeases(s, h);
    case Erase(h) => EraseKeepsLeases(s, h);
  }

  lemma StepKeepsWorld(s: State, e: Event)
    requires Step(s, e).Some?
    ensures Step(s, e).value.path == s.path
  {
    hide AcquireStep, BeginStart, StartedStep, ReleaseStep, MarkStopping;
  }

  lemma {:induction false} RunKeepsInv(path: Path, sharing: bool, run: seq<Event>)
    requires Valid(path, sharing, run)
    ensures TableInv(After(path, sharing, run)) && LeaseInv(After(path, sharing, run))
    ensures After(path, sharing, run).path == path
  {
    if run != [] {
      hide Step, TableInv, LeaseInv;
      var p, e := run[..|run| - 1], run[|run| - 1];
      RunKeepsInv(path, sharing, p);
      StepKeepsInv(After(path, sharing, p), e);
      StepKeepsLeases(After(path, sharing, p), e);
      StepKeepsWorld(After(path, sharing, p), e);
    }
  }

  // ----- what holds in every run

  /** An image has at most one running shared device, the index points exactly at it, and it
      is never writable. */
  lemma OneSharedDevice(path: Path, sharing: bool, run: seq<Event>, image: nat)
    requires Valid(path, sharing, run)
    ensures var s := After(path, sharing, run);
            && (forall i, j | SharedDevice(path, s.devices, i, image)
                  && SharedDevice(path, s.devices, j, image) :: i == j)
            && (forall i | SharedDevice(path, s.devices, i, image) :: !s.devices[i].writable)
            && (image in s.index <==> exists i :: SharedDevice(path, s.devices, i, image))
            && (image in s.index ==> SharedDevice(path, s.devices, s.index[image], image))
  {
    RunKeepsInv(path, sharing, run);
    var s := After(path, sharing, run);
    assert image in s.index ==> SharedDevice(path, s.devices, s.index[image], image);
  }

  /** An indexed device is listed, shared and running and has the path it is indexed under, in
      every run: the two repair branches of acquire are never taken. */
  lemma IndexedIsRunning(path: Path, sharing: bool, run: seq<Event>, image: nat)
    requires Valid(path, sharing, run) && image in After(path, sharing, run).index
    ensures var s := After(path, sharing, run); SharedDevice(path, s.devices, s.index[image], image)
  {
    RunKeepsInv(path, sharing, run);
    hide Step;
  }

  /** The reference count of a running device is the number of leases granted on it less
      those given back, and is at least one. */
  lemma RefcountIsLeases(path: Path, sharing: bool, run: seq<Event>, id: nat)
    requires Valid(path, sharing, run)
    requires id in After(path, sharing, run).devices && !After(path, sharing, run).devices[id].stopping
    ensures var s := After(path, sharing, run);
            s.devices[id].refcount == |Grants(s.handlers, s.devices[id].dev)| - |Drops(s.handlers,
                s.devices[id].dev)| >= 1
  {
    RunKeepsInv(path, sharing, run);
    var s := After(path, sharing, run);
    assert InTable(s.devices, s.devices[id].dev, id);
  }

  /** A device object listed under `id` is in the table or has been erased, never both.
      It is torn down at most once and erased at most once, after that; while it runs it is
      not torn down, and while it is stopping exactly one handler drains it and still has
      its entry. */
  lemma TornDownOnce(path: Path, sharing: bool, run: seq<Event>, d: nat, id: nat)
    requires Valid(path, sharing, run) && Listed(After(path, sharing, run).handlers, d, id)
    ensures var s := After(path, sharing, run);
            && Distinct(s.torn) && Distinct(s.erased)
            && (InTable(s.devices, d, id) <==> d !in s.erased)
            && (d in s.erased ==> d in s.torn)
            && (InTable(s.devices, d, id) && !s.devices[id].stopping ==> d !in s.torn)
            && (InTable(s.devices, d, id) && s.devices[id].stopping ==>
                  exists h :: Drains(s.handlers, h, id) && s.handlers[h].dev == d
                      && (s.handlers[h].torn <==> d in s.torn))
            && (forall h, g | Drains(s.handlers, h, id) && Drains(s.handlers, g, id) :: h == g)
  {
    RunKeepsInv(path, sharing, run);
    var s := After(path, sharing, run);
    if InTable(s.devices, d, id) && s.devices[id].stopping {
      var h :| Drains(s.handlers, h, id);
      assert IsDraining(s.handlers, h);
    }
  }
}
