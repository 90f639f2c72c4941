/** The background download thread: a retry queue of layers.

The environment decides, iteration by iteration, whether the image is still open, whether
the directory lock is free, whether a commit file makes the download unnecessary and
whether it succeeds. A schedule lists these decisions; when it ends the image is closed.
 */
module DownloadQueue {
  import opened Collections

  const UINT32_MOD := 0x1_0000_0000

  /** `try_cnt` is an unsigned 32-bit field. */
  datatype Item = Item(id: nat, tries: nat)

  /** One iteration: the image is open before and after, the lock is won, a commit file is
      there already, the download succeeds. */
  datatype Turn = Turn(openBefore: bool, locked: bool, present: bool, succeeds: bool, openAfter: bool)

  /** The thread between two iterations; `closed` once it has seen the image closed. */
  datatype Loop = Loop(queue: seq<Item>, freed: seq<nat>, attempts: seq<nat>, wins: nat, closed: bool)

  /** The decrement at the head of download_blob. */
  function Decrement(tries: nat): nat {
    if tries == 0 then UINT32_MOD - 1 else tries - 1
  }

  /** An iteration that won the lock of the first item. */
  function Won(s: Loop, turn: Turn): Loop
    requires s.queue != []
  {
    var first, rest := s.queue[0], s.queue[1..];
    var item := if turn.present then first else first.(tries := Decrement(first.tries));
    var t := s.(queue := rest, wins := s.wins + 1,
                attempts := if turn.present then s.attempts else s.attempts + [first.id]);
    if !turn.openAfter then t.(freed := s.freed + [first.id], closed := true)
    else if !turn.present && !turn.succeeds && item.tries > 0 then t.(queue := rest + [item])
    else t.(freed := s.freed + [first.id])
  }

  /** One iteration of the loop; nothing more happens once it has ended. */
  function Turned(s: Loop, turn: Turn): Loop {
    if s.closed || s.queue == [] then s
    else if !turn.openBefore then s.(closed := true)
    else if !turn.locked then s.(queue := s.queue[1..] + [s.queue[0]])
    else Won(s, turn)
  }

  function Start(items: seq<Item>): Loop {
    Loop(items, [], [], 0, false)
  }

  function After(items: seq<Item>, schedule: seq<Turn>): Loop {
    if schedule == [] then Start(items)
    else Turned(After(items, schedule[..|schedule| - 1]), schedule[|schedule| - 1])
  }

  function Ids(q: seq<Item>): seq<nat> {
    seq(|q|, k requires 0 <= k < |q| => q[k].id)
  }

  // ----- every item is in the queue or freed

  lemma IdsPop(q: seq<Item>)
    requires q != []
    ensures Ids(q) == [q[0].id] + Ids(q[1..])
  {
  }

  lemma IdsPush(q: seq<Item>, i: Item)
    ensures Ids(q + [i]) == Ids(q) + [i.id]
  {
  }

  lemma TurnConserves(s: Loop, turn: Turn, id: nat)
    ensures var t := Turned(s, turn);
            Times(Ids(t.queue), id) + Times(t.freed, id) == Times(Ids(s.queue), id) + Times(s.freed, id)
  {
    if s.queue != [] {
      hide Ids, Times;
      var first, rest := s.queue[0], s.queue[1..];
      IdsPop(s.queue);
      TimesAppend([first.id], Ids(rest), id);
      TimesAppend(Ids(rest), [first.id], id);
      TimesAppend(s.freed, [first.id], id);
      IdsPush(rest, first);
      IdsPush(rest, first.(tries := Decrement(first.tries)));
    }
  }

  lemma {:induction false} Conserved(items: seq<Item>, schedule: seq<Turn>, id: nat)
    ensures var s := After(items, schedule);
            Times(Ids(s.queue), id) + Times(s.freed, id) == Times(Ids(items), id)
  {
    if schedule != [] {
      hide Turned, Ids;
      Conserved(items, schedule[..|schedule| - 1], id);
      TurnConserves(After(items, schedule[..|schedule| - 1]), schedule[|schedule| - 1], id);
    }
  }

  // ----- attempts are paid for by tries

  /** The attempts an item is good for: without a try the counter wraps first. */
  function Good(tries: nat): nat {
    if tries == 0 then UINT32_MOD else tries
  }

  /** The attempts the items with this id are good for, and all items together. */
  function GoodFor(q: seq<Item>, id: nat): nat {
    if q == [] then 0 else (if q[0].id == id then Good(q[0].tries) else 0) + GoodFor(q[1..], id)
  }

  function GoodForAll(q: seq<Item>): nat {
    if q == [] then 0 else Good(q[0].tries) + GoodForAll(q[1..])
  }

  lemma {:induction false} GoodAppend(q: seq<Item>, i: Item, id: nat)
    ensures GoodFor(q + [i], id) == GoodFor(q, id) + (if i.id == id then Good(i.tries) else 0)
    ensures GoodForAll(q + [i]) == GoodForAll(q) + Good(i.tries)
  {
    if q != [] {
      GoodAppend(q[1..], i, id);
      assert (q + [i])[1..] == q[1..] + [i];
    }
  }

  /** An iteration spends at least what it uses; a failing one exactly that. */
  lemma TurnSpends(s: Loop, turn: Turn, id: nat)
    ensures var t := Turned(s, turn);
            && Times(t.attempts, id) + GoodFor(t.queue, id) <= Times(s.attempts, id) + GoodFor(s.queue, id)
            && t.wins + GoodForAll(t.queue) <= s.wins + GoodForAll(s.queue)
    ensures turn == Fails() ==>
              var t := Turned(s, turn);
              && Times(t.attempts, id) + GoodFor(t.queue, id) == Times(s.attempts, id) + GoodFor(s.queue, id)
              && t.wins + GoodForAll(t.queue) == s.wins + GoodForAll(s.queue)
              && (!s.closed ==> !t.closed)
              && (!s.closed && s.queue != [] ==> t.wins == s.wins + 1)
  {
    if s.queue != [] {
      hide Times;
      var first, rest := s.queue[0], s.queue[1..];
      TimesAppend(s.attempts, [first.id], id);
      TimesOne(first.id, id);
      GoodAppend(rest, first, id);
      GoodAppend(rest, first.(tries := Decrement(first.tries)), id);
    }
  }

  /** For every schedule: the attempts on an id and the lock-winning iterations are at most
      what the items are good for. */
  lemma {:induction false} Spent(items: seq<Item>, schedule: seq<Turn>, id: nat)
    ensures var s := After(items, schedule);
            && Times(s.attempts, id) + GoodFor(s.queue, id) <= GoodFor(items, id)
            && s.wins + GoodForAll(s.queue) <= GoodForAll(items)
  {
    if schedule != [] {
      hide Turned, GoodFor, GoodForAll;
      Spent(items, schedule[..|schedule| - 1], id);
      TurnSpends(After(items, schedule[..|schedule| - 1]), schedule[|schedule| - 1], id);
    }
  }

  // ----- no item is given up early

  /** The iteration wins the lock of an item with this id and the layer is there afterwards. */
  predicate Settles(s: Loop, turn: Turn, id: nat) {
    && !s.closed && s.queue != [] && s.queue[0].id == id && turn.openBefore && turn.locked
    && (turn.present || turn.succeeds)
  }

  ghost predicate Settled(items: seq<Item>, schedule: seq<Turn>, id: nat) {
    exists k: nat :: k < |schedule| && Settles(After(items, schedule[..k]), schedule[k], id)
  }

  /** Any other iteration spends exactly what it uses, and gives up nothing else. */
  lemma TurnKeepsOthers(s: Loop, turn: Turn, id: nat)
    requires !Turned(s, turn).closed
    ensures !Settles(s, turn, id) ==>
              var t := Turned(s, turn);
              Times(t.attempts, id) + GoodFor(t.queue, id) == Times(s.attempts, id) + GoodFor(s.queue, id)
    ensures Settles(s, turn, id) ==> id in Turned(s, turn).freed
  {
    if s.queue != [] {
      hide Times;
      var first, rest := s.queue[0], s.queue[1..];
      TimesAppend(s.attempts, [first.id], id);
      TimesOne(first.id, id);
      GoodAppend(rest, first, id);
      GoodAppend(rest, first.(tries := Decrement(first.tries)), id);
    }
  }

  /** On every schedule, as long as the image is open: the items with an id leave the queue only
      because one of them was downloaded or found there already, or because all their tries
      have been spent on attempts; and one that was downloaded or found does leave it. */
  lemma {:induction false} NoneGivenUpEarly(items: seq<Item>, schedule: seq<Turn>, id: nat)
    requires !After(items, schedule).closed
    ensures !Settled(items, schedule, id) ==>
              var s := After(items, schedule);
              Times(s.attempts, id) + GoodFor(s.queue, id) == GoodFor(items, id)
    ensures Settled(items, schedule, id) ==> id in After(items, schedule).freed
  {
    if schedule != [] {
      var n := |schedule| - 1;
      var p, turn := schedule[..n], schedule[n];
      StaysOpen(After(items, p), turn);
      NoneGivenUpEarly(items, p, id);
      TurnKeepsOthers(After(items, p), turn, id);
      FreedStays(After(items, p), turn, id);
      hide Turned, GoodFor, Settles, Settled, Times;
      SettledGrows(items, schedule, id);
    }
  }

  lemma SettledGrows(items: seq<Item>, schedule: seq<Turn>, id: nat)
    requires schedule != []
    ensures var p := schedule[..|schedule| - 1];
            Settled(items, schedule, id) <==>
              Settled(items, p, id) || Settles(After(items, p), schedule[|schedule| - 1], id)
  {
    hide Settles, After;
    var n := |schedule| - 1;
    var p := schedule[..n];
    forall k: nat | k < n
      ensures Settles(After(items, p[..k]), p[k], id) <==> Settles(After(items, schedule[..k]), schedule[k], id)
    {
      assert p[..k] == schedule[..k];
    }
  }

  lemma StaysOpen(s: Loop, turn: Turn)
    ensures s.closed ==> Turned(s, turn).closed
  {
  }

  lemma FreedStays(s: Loop, turn: Turn, id: nat)
    ensures id in s.freed ==> id in Turned(s, turn).freed
  {
  }

  /** Iterations that find the lock taken: each puts the first item behind all others, so every
      item comes first in its turn. */
  lemma {:induction false} BusyRotates(items: seq<Item>, schedule: seq<Turn>)
    requires |schedule| <= |items| && forall k | 0 <= k < |schedule| :: schedule[k].openBefore && !schedule[k].locked
    ensures After(items, schedule) == Start(items[|schedule|..] + items[..|schedule|])
  {
    if schedule != [] {
      var n := |schedule| - 1;
      BusyRotates(items, schedule[..n]);
      var q := items[n..] + items[..n];
      assert q[0] == items[n] && q[1..] + [q[0]] == items[n + 1..] + items[..n + 1];
    } else {
      assert items[0..] + items[..0] == items;
    }
  }

  // ----- an item that keeps failing

  /** The image is open, the lock free, no commit file there, and the download fails. */
  function Fails(): Turn {
    Turn(true, true, false, false, true)
  }

  /** `n` failing iterations. */
  function Failing(n: nat): seq<Turn> {
    seq(n, _ => Fails())
  }

  lemma {:induction false} FailingSpends(items: seq<Item>, n: nat, id: nat)
    requires n <= GoodForAll(items)
    ensures var s := After(items, Failing(n));
            && !s.closed && s.wins == n
            && Times(s.attempts, id) + GoodFor(s.queue, id) == GoodFor(items, id)
            && s.wins + GoodForAll(s.queue) == GoodForAll(items)
  {
    if n > 0 {
      hide Turned, GoodFor;
      assert Failing(n)[..n - 1] == Failing(n - 1);
      FailingSpends(items, n - 1, id);
      TurnSpends(After(items, Failing(n - 1)), Fails(), id);
    }
  }

  lemma {:induction false} NothingGood(q: seq<Item>)
    ensures GoodForAll(q) == 0 ==> q == []
  {
  }

  /** When every download fails, each item is attempted exactly as often as it is good for:
      as many times as it has tries, and 2^32 times when it starts with none. */
  lemma FailingAttempts(items: seq<Item>, id: nat)
    ensures var s := After(items, Failing(GoodForAll(items)));
            s.queue == [] && !s.closed && Times(s.attempts, id) == GoodFor(items, id)
  {
    FailingSpends(items, GoodForAll(items), id);
    NothingGood(After(items, Failing(GoodForAll(items))).queue);
  }

  /** The tries of the items with this id. */
  function Tally(q: seq<Item>, id: nat): nat {
    if q == [] then 0 else (if q[0].id == id then q[0].tries else 0) + Tally(q[1..], id)
  }

  predicate Tried(q: seq<Item>) {
    forall k | 0 <= k < |q| :: q[k].tries >= 1
  }

  lemma {:induction false} GoodIsTally(q: seq<Item>, id: nat)
    ensures GoodFor(q, id) >= Tally(q, id)
    ensures Tried(q) ==> GoodFor(q, id) == Tally(q, id)
  {
    if q != [] {
      assert Tried(q) ==> Tried(q[1..]);
      GoodIsTally(q[1..], id);
    }
  }

  lemma {:induction false} UntriedWraps(q: seq<Item>, k: nat)
    requires k < |q| && q[k].tries == 0
    ensures GoodFor(q, q[k].id) > Tally(q, q[k].id)
  {
    GoodIsTally(q[1..], q[k].id);
    if k > 0 {
      UntriedWraps(q[1..], k - 1);
    }
  }

  ghost predicate WithinTries(items: seq<Item>, schedule: seq<Turn>) {
    forall id :: Times(After(items, schedule).attempts, id) <= Tally(items, id)
  }

  /** On every schedule no item is attempted more often than it has tries, if and only if
      every item starts with a try. */
  lemma BoundExactly(items: seq<Item>)
    ensures (forall schedule :: WithinTries(items, schedule)) <==> Tried(items)
  {
    if Tried(items) {
      forall schedule ensures WithinTries(items, schedule) {
        forall id ensures Times(After(items, schedule).attempts, id) <= Tally(items, id) {
          Spent(items, schedule, id);
          GoodIsTally(items, id);
        }
      }
    } else {
      var k :| 0 <= k < |items| && items[k].tries == 0;
      UntriedWraps(items, k);
      FailingAttempts(items, items[k].id);
      assert !WithinTries(items, Failing(GoodForAll(items)));
    }
  }

  // ----- the thread

  /** The thread's loop and the clean-up after it. For every schedule each item is freed exactly
      once; attempts and lock-winning iterations are those of the iterations one by one. */
  method BkDownloadProc(items: seq<Item>, schedule: seq<Turn>)
    returns (freed: seq<nat>, attempts: seq<nat>, wins: nat)
    ensures forall id :: Times(freed, id) == Times(Ids(items), id)
    ensures attempts == After(items, schedule).attempts && wins == After(items, schedule).wins
    ensures forall id :: Times(attempts, id) <= GoodFor(items, id)
    ensures wins <= GoodForAll(items)
  {
    hide Times, Ids, GoodFor, GoodForAll;
    var q := items;
    freed, attempts, wins := [], [], 0;
    var t, closed := 0, false;
    while q != [] && !closed && t < |schedule|
      invariant 0 <= t <= |schedule|
      invariant After(items, schedule[..t]) == Loop(q, freed, attempts, wins, closed)
      decreases |schedule| - t
    {
      var turn := schedule[t];
      assert schedule[..t + 1][..t] == schedule[..t];
      t := t + 1;
      if !turn.openBefore {
        closed := true;
        continue;
      }
      var item := q[0];
      q := q[1..];
      if !turn.locked {
        q := q + [item];
        continue;
      }
      wins := wins + 1;
      var succ := true;
      if !turn.present {
        item := item.(tries := Decrement(item.tries));
        attempts := attempts + [item.id];
        succ := turn.succeeds;
      }
      if !turn.openAfter {
        freed := freed + [item.id];
        closed := true;
        continue;
      }
      if !succ && item.tries > 0 {
        q := q + [item];
        continue;
      }
      freed := freed + [item.id];
    }
    EndedStays(items, schedule, t);
    Spent(items, schedule, 0);
    forall id ensures Times(attempts, id) <= GoodFor(items, id) {
      Spent(items, schedule, id);
    }
    forall id ensures Times(Ids(q), id) + Times(freed, id) == Times(Ids(items), id) {
      Conserved(items, schedule, id);
    }
    freed := FreeAll(q, freed);
  }

  /** The items left when the thread exits in advance. */
  method FreeAll(queue: seq<Item>, freed: seq<nat>) returns (r: seq<nat>)
    ensures forall id :: Times(r, id) == Times(freed, id) + Times(Ids(queue), id)
  {
    var q := queue;
    r := freed;
    while q != []
      invariant forall id :: Times(Ids(q), id) + Times(r, id) == Times(freed, id) + Times(Ids(queue), id)
    {
      hide Times, Ids;
      IdsPop(q);
      forall id ensures Times(Ids(q), id) == Times([q[0].id], id) + Times(Ids(q[1..]), id)
                        && Times(r + [q[0].id], id) == Times(r, id) + Times([q[0].id], id) {
        TimesAppend([q[0].id], Ids(q[1..]), id);
        TimesAppend(r, [q[0].id], id);
      }
      r, q := r + [q[0].id], q[1..];
    }
    NoIds();
  }

  lemma NoIds()
    ensures forall id :: Times(Ids([]), id) == 0
  {
  }

  /** A loop that has ended stays as it is. */
  lemma {:induction false} EndedStays(items: seq<Item>, schedule: seq<Turn>, t: nat)
    requires t <= |schedule|
    requires t == |schedule| || After(items, schedule[..t]).queue == [] || After(items, schedule[..t]).closed
    ensures After(items, schedule) == After(items, schedule[..t])
  {
    if t == |schedule| {
      assert schedule[..t] == schedule;
    } else {
      var p := schedule[..|schedule| - 1];
      assert p[..t] == schedule[..t];
      EndedStays(items, p, t);
    }
  }
}
