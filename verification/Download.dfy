/** Background download of a layer and the switch from the remote file to the local copy.

Downloaders of one process share directories; the lock set admits one of them per
directory. Every step that can be observed by another downloader is one event: taking the
lock, looking for the commit file, each write to the temporary file, hashing it,
renaming it, opening the commit file, dropping the lock.
 */
module Download {
  import opened Collections
  import opened Runs

  type Bytes = seq<nat>

  /** The layers' format: a tar adaptor that may fail to open, a test for the compressed
      format that may fail, and the decompressed view. */
  datatype Format = Format(tar: Bytes -> Option<Bytes>, isZFile: Bytes -> Option<bool>, unzip: Bytes -> Option<Bytes>)

  /** The bytes a reader sees through the adaptors, if the file can be opened. */
  function View(f: Format, raw: Bytes): Option<Bytes> {
    match f.tar(raw)
    case None => None
    case Some(inner) =>
      match f.isZFile(inner)
      case None => None
      case Some(true) => f.unzip(inner)
      case Some(false) => Some(inner)
  }

  /** The layer has the compressed format. */
  predicate Zipped(f: Format, raw: Bytes) {
    f.tar(raw).Some? && f.isZFile(f.tar(raw).value) == Some(true)
  }

  function Pread(file: Bytes, offset: nat, count: nat): Bytes {
    if offset >= |file| then []
    else if offset + count > |file| then file[offset..]
    else file[offset..offset + count]
  }

  /** Only the layer's own bytes have its digest. */
  ghost predicate Determines(hash: Bytes -> nat, digest: nat, raw: Bytes) {
    forall c: Bytes :: hash(c) == digest ==> c == raw
  }

  /** What goes wrong while a commit file is opened: the tar adaptor, the test for the compressed
      format, the decompressor. */
  datatype Trouble = Trouble(tar: bool, test: bool, unzip: bool)

  /** The file handed to readers: remote until a local copy could be opened. `raw` is the
      layer as it lies in the registry and `remote` what a reader sees of it. */
  class SwitchFile {
    const format: Format
    ghost const raw: Bytes
    const remote: Bytes
    var local: Option<Bytes>

    /** A local copy shows what the remote file shows. */
    ghost predicate Valid()
      reads this
    {
      View(format, raw) == Some(remote) && (local.Some? ==> local.value == remote)
    }

    constructor (format: Format, raw: Bytes, remote: Bytes)
      requires View(format, raw) == Some(remote)
      ensures Valid() && this.format == format && this.raw == raw && this.remote == remote && local == None
    {
      this.format, this.raw, this.remote, local := format, raw, remote, None;
    }

    /** The commit file, if it can be opened, has the layer's digest. The switch fails exactly when
        the file cannot be opened or something goes wrong in a step that is needed, and then
        leaves the reader on the file it had. */
    method SetSwitchFile(commit: Option<Bytes>, trouble: Trouble, ghost hash: Bytes -> nat, ghost digest: nat)
      returns (failed: bool)
      requires Valid() && Determines(hash, digest, raw)
      requires commit.Some? ==> hash(commit.value) == digest
      modifies this
      ensures Valid()
      ensures failed <==> commit.None? || trouble.tar || trouble.test || (Zipped(format, raw) && trouble.unzip)
      ensures local == if failed then old(local) else Some(remote)
    {
      if commit.None? {
        return true;
      }
      assert commit.value == raw;
      var tarFile := format.tar(commit.value);
      if trouble.tar || tarFile.None? {
        return true;
      }
      var zipped := format.isZFile(tarFile.value);
      if trouble.test || zipped.None? {
        return true;
      }
      var file := tarFile;
      if zipped.value {
        file := format.unzip(tarFile.value);
        if trouble.unzip || file.None? {
          return true;
        }
      }
      local := file;
      failed := false;
    }

    /** Every read returns the range of the remote file, switched or not. */
    method Read(offset: nat, count: nat) returns (r: Bytes)
      requires Valid()
      ensures r == Pread(remote, offset, count)
    {
      if local.Some? {
        r := Pread(local.value, offset, count);
      } else {
        r := Pread(remote, offset, count);
      }
    }
  }

  // ----- downloaders sharing directories

  datatype Pc =
    | Waiting                   // in the queue
    | Locked                    // holds the directory
    | Copying
    | Copied
    | Hashed(sum: nat)
    | Switching
    | Leaving                   // done or failed, still holds the directory
    | Gone

  /** A downloader and the file it switches. */
  datatype Loader = Loader(dir: nat, remote: Bytes, pc: Pc, local: Option<Bytes>)

  /** `hash`, `format` and the digest of each directory's layer are fixed. */
  datatype State = State(
    hash: Bytes -> nat,
    format: Format,
    digest: nat -> nat,
    locks: set<nat>,
    tmp: map<nat, Bytes>,
    commit: map<nat, Bytes>,
    loaders: map<nat, Loader>)

  datatype Event =
    | Create(d: nat, dir: nat, remote: Bytes)
    | Lock(d: nat)
    | Look(d: nat)
    | Write(d: nat, bytes: Bytes)      // any change to the temporary file
    | CopyEnds(d: nat, ok: bool)
    | Hash(d: nat, ok: bool)           // the file may be unreadable
    | Rename(d: nat, ok: bool)
    | Switch(d: nat, ok: bool)
    | Unlock(d: nat, again: bool)

  function At(s: State, d: nat, p: Pc): State
    requires d in s.loaders
  {
    s.(loaders := s.loaders[d := s.loaders[d].(pc := p)])
  }

  /** Compare the sum with the digest and rename; the temporary file becomes the commit. */
  function RenameStep(s: State, d: nat, ok: bool): State
    requires d in s.loaders && s.loaders[d].pc.Hashed?
  {
    var dir := s.loaders[d].dir;
    if s.loaders[d].pc.sum != s.digest(dir) || !ok || dir !in s.tmp then At(s, d, Leaving)
    else At(s, d, Switching).(commit := s.commit[dir := s.tmp[dir]], tmp := Without(s.tmp, dir))
  }

  function SwitchStep(s: State, d: nat, ok: bool): State
    requires d in s.loaders
  {
    var v := s.loaders[d];
    var t := At(s, d, Leaving);
    if ok && v.dir in s.commit && View(s.format, s.commit[v.dir]).Some?
    then t.(loaders := s.loaders[d := v.(pc := Leaving, local := View(s.format, s.commit[v.dir]))])
    else t
  }

  function Step(s: State, e: Event): Option<State> {
    if e.Create? then
      if e.d in s.loaders then None
      else Some(s.(loaders := s.loaders[e.d := Loader(e.dir, e.remote, Waiting, None)]))
    else if e.d !in s.loaders then None
    else
      var v := s.loaders[e.d];
      match e
      case Lock(d) =>
        if !v.pc.Waiting? || v.dir in s.locks then None
        else Some(At(s, d, Locked).(locks := s.locks + {v.dir}))
      case Look(d) =>
        if !v.pc.Locked? then None
        else Some(At(s, d, if v.dir in s.commit then Switching else Copying))
      case Write(d, bytes) =>
        if !v.pc.Copying? then None else Some(s.(tmp := s.tmp[v.dir := bytes]))
      case CopyEnds(d, ok) =>
        if !v.pc.Copying? then None else Some(At(s, d, if ok then Copied else Leaving))
      case Hash(d, ok) =>
        if !v.pc.Copied? then None
        else Some(At(s, d, if ok && v.dir in s.tmp then Hashed(s.hash(s.tmp[v.dir])) else Leaving))
      case Rename(d, ok) => if !v.pc.Hashed? then None else Some(RenameStep(s, d, ok))
      case Switch(d, ok) => if !v.pc.Switching? then None else Some(SwitchStep(s, d, ok))
      case Unlock(d, again) =>
        if !v.pc.Leaving? then None
        else Some(At(s, d, if again then Waiting else Gone).(locks := s.locks - {v.dir}))
  }

  /** A start: a commit file may be there already. */
  predicate Initial(s: State) {
    s.locks == {} && s.loaders == map[]
  }

  predicate Valid(init: State, run: seq<Event>) {
    IsRun(Step, init, run)
  }

  function After(init: State, run: seq<Event>): State
    requires Valid(init, run)
  {
    Exec(Step, init, run).value
  }

  // ----- the directory lock

  /** The loader is between taking and dropping the lock of the directory. */
  predicate Inside(loaders: map<nat, Loader>, d: nat, dir: nat) {
    d in loaders && loaders[d].dir == dir && !loaders[d].pc.Waiting? && !loaders[d].pc.Gone?
  }

  ghost predicate LockInv(loaders: map<nat, Loader>, locks: set<nat>) {
    && (forall d, dir | Inside(loaders, d, dir) :: dir in locks)
    && (forall d, e, dir | Inside(loaders, d, dir) && Inside(loaders, e, dir) :: d == e)
  }

  lemma StepKeepsLocks(s: State, e: Event)
    requires LockInv(s.loaders, s.locks) && Step(s, e).Some?
    ensures LockInv(Step(s, e).value.loaders, Step(s, e).value.locks)
  {
    hide View;
    var t := Step(s, e).value;
    forall d, dir | Inside(t.loaders, d, dir) && d != e.d ensures Inside(s.loaders, d, dir) {
    }
    if e.d in s.loaders {
      var dir := s.loaders[e.d].dir;
      assert Inside(s.loaders, e.d, dir) || e.Lock?;
      assert forall x :: Inside(t.loaders, e.d, x) ==> x == dir;
    }
  }

  /** A loader that is copying or later has not seen a commit file and there is none, and
      the sum it holds is that of the temporary file. */
  predicate CopyOk(s: State, d: nat) {
    d in s.loaders ==>
      var v := s.loaders[d];
      && (v.pc.Copying? || v.pc.Copied? || v.pc.Hashed? ==> v.dir !in s.commit)
      && (v.pc.Hashed? ==> v.dir in s.tmp && v.pc.sum == s.hash(s.tmp[v.dir]))
  }

  /** What another loader does in another directory, or what this one does itself. */
  lemma StepKeepsCopy(s: State, e: Event, d: nat)
    requires LockInv(s.loaders, s.locks) && CopyOk(s, d) && Step(s, e).Some?
    ensures CopyOk(Step(s, e).value, d)
  {
    hide View;
    if e.d in s.loaders && d in s.loaders && e.d != d {
      var dir := s.loaders[d].dir;
      assert Inside(s.loaders, d, dir) && Inside(s.loaders, e.d, dir) ==> false;
    }
  }

  /** Steps never change a commit file; a new one has the digest of its directory. */
  lemma StepKeepsCommits(s: State, e: Event, dir: nat)
    requires Step(s, e).Some?
    requires forall d :: CopyOk(s, d)
    ensures var t := Step(s, e).value;
            && (dir in s.commit ==> dir in t.commit && t.commit[dir] == s.commit[dir])
            && (dir in t.commit && dir !in s.commit ==> s.hash(t.commit[dir]) == s.digest(dir))
  {
    hide View;
    assert CopyOk(s, e.d);
  }

  lemma StepKeepsWorld(s: State, e: Event)
    requires Step(s, e).Some?
    ensures var t := Step(s, e).value;
            t.hash == s.hash && t.format == s.format && t.digest == s.digest
  {
    hide View;
  }

  ghost predicate Inv(s: State) {
    LockInv(s.loaders, s.locks) && forall d :: CopyOk(s, d)
  }

  lemma {:induction false} RunKeeps(init: State, run: seq<Event>)
    requires Initial(init) && Valid(init, run)
    ensures Inv(After(init, run))
    ensures var t := After(init, run);
            t.hash == init.hash && t.format == init.format && t.digest == init.digest
  {
    if run != [] {
      hide Step, LockInv, CopyOk;
      var p, e := run[..|run| - 1], run[|run| - 1];
      RunKeeps(init, p);
      var s := After(init, p);
      StepKeepsLocks(s, e);
      StepKeepsWorld(s, e);
      forall d ensures CopyOk(Step(s, e).value, d) {
        StepKeepsCopy(s, e, d);
      }
    }
  }

  /** In every run a commit file that the downloaders made has the layer's digest, and one
      that was there stays as it was. */
  lemma {:induction false} CommitIsVerified(init: State, run: seq<Event>, dir: nat)
    requires Initial(init) && Valid(init, run)
    ensures var t := After(init, run);
            && (dir in init.commit ==> dir in t.commit && t.commit[dir] == init.commit[dir])
            && (dir in t.commit && dir !in init.commit ==> init.hash(t.commit[dir]) == init.digest(dir))
  {
    if run != [] {
      var p, e := run[..|run| - 1], run[|run| - 1];
      CommitIsVerified(init, p, dir);
      RunKeeps(init, p);
      hide Step, LockInv, CopyOk;
      StepKeepsCommits(After(init, p), e, dir);
    }
  }

  // ----- reads do not notice the switch

  /** The digest determines the content of the directory's layer, and a commit file that is
      there at the start has it. */
  ghost predicate DigestDetermines(init: State, dir: nat, remote: Bytes) {
    && Determines(init.hash, init.digest(dir), remote)
    && (dir in init.commit ==> init.hash(init.commit[dir]) == init.digest(dir))
  }

  /** What a reader of the loader's file sees. */
  function Reader(s: State, d: nat): Option<Bytes>
    requires d in s.loaders
  {
    if s.loaders[d].local.Some? then s.loaders[d].local else View(s.format, s.loaders[d].remote)
  }

  lemma StepKeepsLocal(s: State, e: Event, d: nat)
    requires Step(s, e).Some? && d in s.loaders
    ensures var t := Step(s, e).value;
            && d in t.loaders && t.loaders[d].dir == s.loaders[d].dir && t.loaders[d].remote == s.loaders[d].remote
            && (t.loaders[d].local == s.loaders[d].local
                || (s.loaders[d].dir in s.commit && t.loaders[d].local == View(s.format, s.commit[s.loaders[d].dir])))
  {
    hide View;
  }

  lemma StepCreates(s: State, e: Event, d: nat)
    requires Step(s, e).Some? && d !in s.loaders && d in Step(s, e).value.loaders
    ensures Step(s, e).value.loaders[d].local == None
  {
    hide View;
  }

  /** In every run the commit file a downloader switches to is what SetSwitchFile asks for. */
  lemma SwitchedIsVerified(init: State, run: seq<Event>, d: nat)
    requires Initial(init) && Valid(init, run) && d in After(init, run).loaders
    requires DigestDetermines(init, After(init, run).loaders[d].dir, After(init, run).loaders[d].remote)
    ensures var s := After(init, run); var v := s.loaders[d];
            && Determines(s.hash, s.digest(v.dir), v.remote)
            && (v.dir in s.commit ==> s.hash(s.commit[v.dir]) == s.digest(v.dir))
  {
    hide Step;
    RunKeeps(init, run);
    CommitIsVerified(init, run, After(init, run).loaders[d].dir);
  }

  /** In every run, every read of any range through the switch file returns what the remote
      file holds, before and after the switch. */
  lemma {:induction false} SwitchIsTransparent(init: State, run: seq<Event>, d: nat)
    requires Initial(init) && Valid(init, run) && d in After(init, run).loaders
    requires DigestDetermines(init, After(init, run).loaders[d].dir, After(init, run).loaders[d].remote)
    ensures Reader(After(init, run), d) == View(init.format, After(init, run).loaders[d].remote)
  {
    var p, e := run[..|run| - 1], run[|run| - 1];
    var s, t := After(init, p), After(init, run);
    RunKeeps(init, run);
    RunKeeps(init, p);
    if d in s.loaders {
      StepKeepsLocal(s, e, d);
      SwitchIsTransparent(init, p, d);
      CommitIsVerified(init, p, s.loaders[d].dir);
    } else {
      StepCreates(s, e, d);
    }
    hide Step, View, Inv;
  }
}
