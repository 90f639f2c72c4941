/** Starting TCMU command handlers on the vCPUs of the work pool.

Each vCPU has a semaphore of 48 handler slots and a count of active handlers. A
batch fetched on a vCPU is started there as far as slots allow, up to eight
commands; the rest is handed to the pool and started on any vCPU.
 */
module TcmuDispatch {
  import opened Collections

  const MAX_HANDLERS_PER_VCPU := 48
  const MAX_LOCAL_DISPATCH := 8
  const UINT32_MOD := 0x1_0000_0000

  /** Where a command is: handed to the pool, blocked on the slots of a vCPU,
      running there, or finished. */
  datatype Place = Queued | Blocked(vcpu: nat) | Running(vcpu: nat) | Finished

  function On(place: map<nat, Place>, p: Place): set<nat> {
    set c | c in place && place[c] == p
  }

  /** Free slots and active handlers make 48 on every vCPU, and the active count is
      the number of handlers running there. */
  predicate Balanced(slots: seq<nat>, active: seq<nat>, place: map<nat, Place>) {
    && |slots| == |active|
    && (forall v | 0 <= v < |slots| :: slots[v] + active[v] == MAX_HANDLERS_PER_VCPU)
    && (forall v | 0 <= v < |slots| :: active[v] == |On(place, Running(v))|)
    && (forall c | c in place && place[c].Running? :: place[c].vcpu < |slots|)
  }

  /** A command was started exactly once when it runs or has finished, and never
      otherwise. */
  ghost predicate StartedOnce(place: map<nat, Place>, started: seq<nat>) {
    && Distinct(started)
    && (forall c | c in started :: c in place)
    && (forall c | c in place :: (place[c].Running? || place[c].Finished?) <==> c in started)
  }

  lemma Moved(place: map<nat, Place>, c: nat, p: Place, q: Place)
    ensures On(place[c := p], q) == if p == q then On(place, q) + {c} else On(place, q) - {c}
  {
    assert forall x :: x in On(place[c := p], q) <==> (if x == c then p == q else x in On(place, q));
  }

  lemma StartKeepsBalance(slots: seq<nat>, active: seq<nat>, place: map<nat, Place>, v: nat, c: nat)
    requires Balanced(slots, active, place) && v < |slots| && slots[v] > 0
    requires c in place ==> !place[c].Running?
    ensures Balanced(slots[v := slots[v] - 1], active[v := active[v] + 1], place[c := Running(v)])
  {
    forall w | 0 <= w < |slots|
      ensures |On(place[c := Running(v)], Running(w))| == |On(place, Running(w))| + (if w == v then 1 else 0)
    {
      Moved(place, c, Running(v), Running(w));
      assert c !in On(place, Running(w));
      assert On(place, Running(w)) - {c} == On(place, Running(w));
    }
  }

  lemma FinishKeepsBalance(slots: seq<nat>, active: seq<nat>, place: map<nat, Place>, c: nat)
    requires Balanced(slots, active, place) && c in place && place[c].Running?
    ensures var v := place[c].vcpu;
            && active[v] > 0
            && Balanced(slots[v := slots[v] + 1], active[v := active[v] - 1], place[c := Finished])
  {
    var v := place[c].vcpu;
    assert c in On(place, Running(v));
    forall w | 0 <= w < |slots|
      ensures |On(place[c := Finished], Running(w))| == |On(place, Running(w))| - (if w == v then 1 else 0)
    {
      Moved(place, c, Finished, Running(w));
      if w != v {
        assert c !in On(place, Running(w));
        assert On(place, Running(w)) - {c} == On(place, Running(w));
      }
    }
  }

  lemma ParkKeepsBalance(slots: seq<nat>, active: seq<nat>, place: map<nat, Place>, c: nat, p: Place)
    requires Balanced(slots, active, place) && !p.Running?
    requires c in place ==> !place[c].Running?
    ensures Balanced(slots, active, place[c := p])
  {
    forall w | 0 <= w < |slots| ensures On(place[c := p], Running(w)) == On(place, Running(w)) {
      Moved(place, c, p, Running(w));
      assert c !in On(place, Running(w));
    }
  }

  /** How many commands of a batch are started where they were fetched. */
  function LocalCount(batch: nat, freeSlots: nat): nat {
    Min(Min(batch, 8), freeSlots)
  }

  /** The places after the commands `cs` have all been put at `p`. */
  function PutAll(place: map<nat, Place>, cs: seq<nat>, p: Place): map<nat, Place> {
    if cs == [] then place
    else PutAll(place, cs[..|cs| - 1], p)[cs[|cs| - 1] := p]
  }

  lemma {:induction false} PutAllAt(place: map<nat, Place>, cs: seq<nat>, p: Place, c: nat)
    ensures c in PutAll(place, cs, p) <==> c in place || c in cs
    ensures c in cs ==> PutAll(place, cs, p)[c] == p
    ensures c !in cs && c in place ==> PutAll(place, cs, p)[c] == place[c]
  {
    if cs != [] {
      PutAllAt(place, cs[..|cs| - 1], p, c);
      assert cs == cs[..|cs| - 1] + [cs[|cs| - 1]];
    }
  }

  /** `n` slots less on vCPU `v`, every other vCPU as it was. */
  predicate TakenAt(before: seq<nat>, after: seq<nat>, v: nat, n: nat)
    requires v < |before|
  {
    && |after| == |before|
    && after[v] == before[v] - n
    && forall w | 0 <= w < |after| && w != v :: after[w] == before[w]
  }

  class WorkPool {
    var slots: seq<nat>           // tlu_handler_slots, one semaphore per vCPU
    var active: seq<nat>          // tlu_active_handlers, one counter per vCPU
    var place: map<nat, Place>    // every command dispatched so far
    ghost var started: seq<nat>   // handlers created, in order

    ghost predicate Valid()
      reads this
    {
      Balanced(slots, active, place) && StartedOnce(place, started)
    }

    constructor (vcpus: nat)
      ensures Valid() && |slots| == vcpus && place == map[] && started == []
    {
      slots := seq(vcpus, _ => MAX_HANDLERS_PER_VCPU);
      active := seq(vcpus, _ => 0);
      place := map[];
      started := [];
      new;
      assert forall v :: On(place, Running(v)) == {};
    }

    /** start_command past the semaphore: a slot is there, so it does not block. */
    method StartCommand(v: nat, c: nat)
      requires Valid() && v < |slots| && slots[v] > 0
      requires c in place ==> place[c] == Blocked(v)
      modifies this
      ensures Valid()
      ensures place == old(place)[c := Running(v)] && started == old(started) + [c]
      ensures slots == old(slots)[v := old(slots)[v] - 1] && active == old(active)[v := old(active)[v] + 1]
    {
      StartKeepsBalance(slots, active, place, v, c);
      slots := slots[v := slots[v] - 1];
      active := active[v := active[v] + 1];
      place := place[c := Running(v)];
      started := started + [c];
    }

    /** async_call of start_command. */
    method Enqueue(c: nat)
      requires Valid() && c !in place
      modifies this`place
      ensures Valid() && place == old(place)[c := Queued]
    {
      ParkKeepsBalance(slots, active, place, c, Queued);
      place := place[c := Queued];
    }

    /** The local part of a batch: every start finds a free slot. */
    method StartLocal(v: nat, commands: seq<nat>, n: nat)
      requires Valid() && v < |slots| && n <= |commands| && n <= slots[v]
      requires Distinct(commands) && forall c | c in commands :: c !in place
      modifies this
      ensures Valid()
      ensures started == old(started) + commands[..n]
      ensures TakenAt(old(slots), slots, v, n)
      ensures place == PutAll(old(place), commands[..n], Running(v))
    {
      hide Balanced, StartedOnce;
      var i := 0;
      while i < n
        invariant 0 <= i <= n && Valid()
        invariant started == old(started) + commands[..i]
        invariant TakenAt(old(slots), slots, v, i)
        invariant place == PutAll(old(place), commands[..i], Running(v))
      {
        PutAllAt(old(place), commands[..i], Running(v), commands[i]);
        StartCommand(v, commands[i]);
        assert commands[..i + 1] == commands[..i] + [commands[i]];
        i := i + 1;
      }
    }

    /** The rest of a batch, handed to the pool. */
    method QueueRest(commands: seq<nat>, n: nat)
      requires Valid() && n <= |commands|
      requires Distinct(commands) && forall c | c in commands[n..] :: c !in place
      modifies this`place
      ensures Valid()
      ensures place == PutAll(old(place), commands[n..], Queued)
    {
      hide Balanced, StartedOnce;
      var i := n;
      while i < |commands|
        invariant n <= i <= |commands| && Valid()
        invariant place == PutAll(old(place), commands[n..i], Queued)
      {
        PutAllAt(old(place), commands[n..i], Queued, commands[i]);
        assert commands[i] in commands[n..];
        Enqueue(commands[i]);
        assert commands[n..i + 1] == commands[n..i] + [commands[i]];
        i := i + 1;
      }
      assert commands[n..i] == commands[n..];
    }

    /** dispatch_commands on vCPU `v`. The first commands of the batch are started
        here, in order, none of them blocking; the others are handed to the pool. The
        32-bit subtraction of the active count does not wrap. */
    method DispatchCommands(v: nat, commands: seq<nat>)
      requires Valid() && v < |slots|
      requires Distinct(commands) && forall c | c in commands :: c !in place
      modifies this
      ensures Valid()
      ensures var n := LocalCount(|commands|, old(slots)[v]);
              && started == old(started) + commands[..n]
              && TakenAt(old(slots), slots, v, n)
              && place == PutAll(PutAll(old(place), commands[..n], Running(v)), commands[n..], Queued)
    {
      var localCommands := Min(Min(|commands|, MAX_LOCAL_DISPATCH),
                               (MAX_HANDLERS_PER_VCPU - active[v]) % UINT32_MOD);
      assert localCommands == LocalCount(|commands|, slots[v]);
      hide PutAll, StartedOnce, Balanced;
      StartLocal(v, commands, localCommands);
      forall c | c in commands[localCommands..] ensures c !in place {
        PutAllAt(old(place), commands[..localCommands], Running(v), c);
      }
      QueueRest(commands, localCommands);
    }

    /** A pool worker on vCPU `v` takes up a handed-over command: it starts when a
        slot is free and otherwise blocks, which happens only while 48 handlers run
        there. */
    method TakeQueued(v: nat, c: nat) returns (blocked: bool)
      requires Valid() && v < |slots|
      requires c in place && (place[c] == Queued || place[c] == Blocked(v))
      modifies this
      ensures Valid()
      ensures blocked == (old(slots)[v] == 0)
      ensures blocked ==> place == old(place)[c := Blocked(v)] && started == old(started)
                          && |slots| == old(|slots|) && |On(place, Running(v))| == 48
      ensures !blocked ==> place == old(place)[c := Running(v)] && started == old(started) + [c]
    {
      ParkKeepsBalance(slots, active, place, c, Blocked(v));
      place := place[c := Blocked(v)];
      blocked := slots[v] == 0;
      if !blocked {
        StartCommand(v, c);
        assert place == old(place)[c := Running(v)];
      }
    }

    /** The end of cmd_handler: the counter goes down, never below zero, and the slot
        is given back. */
    method FinishHandler(c: nat)
      requires Valid() && c in place && place[c].Running?
      modifies this`slots, this`active, this`place
      ensures Valid()
      ensures var v := old(place)[c].vcpu;
              && old(active)[v] > 0
              && slots == old(slots)[v := old(slots)[v] + 1]
              && active == old(active)[v := old(active)[v] - 1]
              && place == old(place)[c := Finished]
    {
      FinishKeepsBalance(slots, active, place, c);
      var v := place[c].vcpu;
      active := active[v := active[v] - 1];
      slots := slots[v := slots[v] + 1];
      place := place[c := Finished];
    }
  }
}
