// The test-and-set lock of src/mutex.c, run by the scheduler of src/task.c.
//
// Each piece of lock, try_lock and unlock that runs without being interrupted is
// one step; the timer may call incr_task between any two of them.
module Locks {
  import opened Words
  import opened Tasks

  const WAITING: u32 := 15

  // Where a task stands in lock.
  datatype Pc = Running | Waiting(m: nat) | Acquired(m: nat)

  // What a task knows: the mutexes it has won and not yet unlocked.
  datatype Proc = Proc(pc: Pc, held: set<nat>)

  datatype System = System(ring: Ring, procs: seq<Proc>, words: seq<u32>)
  {
    ghost predicate Shaped() {
      ring.Valid() && |procs| == |ring.slots|
    }
  }

  // The task that runs.
  function Me(s: System): Proc
    requires s.Shaped()
  {
    s.procs[s.ring.cur]
  }

  datatype Action =
    | TimerTick
    | Fork
    | EnterLock(m: nat)  // priority = 15
    | Exchange           // one turn of the xchg loop
    | LeaveLock          // priority = 0
    | TryLock(m: nat)
    | Unlock(m: nat)

  // A mutex is unlocked by the task that holds it.
  ghost predicate Enabled(s: System, a: Action) {
    s.Shaped() &&
    match a
    case TimerTick => true
    case Fork => Me(s).pc.Running?
    case EnterLock(m) => Me(s).pc.Running? && m < |s.words|
    case Exchange => Me(s).pc.Waiting? && Me(s).pc.m < |s.words|
    case LeaveLock => Me(s).pc.Acquired?
    case TryLock(m) => Me(s).pc.Running? && m < |s.words|
    case Unlock(m) => Me(s).pc.Running? && m in Me(s).held && m < |s.words|
  }

  function WithMe(s: System, p: Proc): System
    requires s.Shaped()
  {
    s.(procs := s.procs[s.ring.cur := p])
  }

  function WithWord(s: System, m: nat, w: u32): System
    requires m < |s.words|
  {
    s.(words := s.words[m := w])
  }

  function Act(s: System, a: Action): (r: System)
    requires Enabled(s, a)
    ensures r.Shaped() && |r.words| == |s.words|
  {
    var me := Me(s);
    match a
    case TimerTick => s.(ring := Tick(s.ring))
    case Fork => System(Forked(s.ring), Spliced(s.procs, s.ring.cur, Proc(Running, {})), s.words)
    case EnterLock(m) => WithMe(s.(ring := Reprioritised(s.ring, WAITING)), Proc(Waiting(m), me.held))
    case Exchange =>
      var m := me.pc.m;
      var t := WithWord(s, m, 1);
      if s.words[m] == 1 then t else WithMe(t, Proc(Acquired(m), me.held + {m}))
    case LeaveLock => WithMe(s.(ring := Reprioritised(s.ring, 0)), Proc(Running, me.held))
    case TryLock(m) =>
      var t := WithWord(s, m, 1);
      if s.words[m] == 0 then WithMe(t, Proc(Running, me.held + {m})) else t
    case Unlock(m) => WithMe(WithWord(s, m, 0), Proc(Running, me.held - {m}))
  }

  ghost predicate Holds(s: System, i: nat, m: nat) {
    i < |s.procs| && m in s.procs[i].held
  }

  // --- The invariant ---

  // At most one task holds a mutex, and its word is 1 exactly when one does.
  ghost predicate Exclusive(s: System) {
    && (forall i: nat, j: nat, m: nat :: Holds(s, i, m) && Holds(s, j, m) ==> i == j)
    && (forall i: nat, m: nat :: Holds(s, i, m) ==> m < |s.words|)
    && (forall m :: 0 <= m < |s.words| ==> s.words[m] == 0 || s.words[m] == 1)
    && (forall m :: 0 <= m < |s.words| ==> (s.words[m] == 1 <==> exists i :: Holds(s, i, m)))
  }

  // A task has priority 15 exactly while it is inside lock.
  ghost predicate Deferred(s: System) {
    && s.Shaped()
    && (forall i :: 0 <= i < |s.procs| ==> s.ring.slots[i].priority == if s.procs[i].pc.Running? then 0 else WAITING)
    && (forall i :: 0 <= i < |s.procs| && s.procs[i].pc.Waiting? ==> s.procs[i].pc.m < |s.words|)
    && (forall i :: 0 <= i < |s.procs| && s.procs[i].pc.Acquired? ==> Holds(s, i, s.procs[i].pc.m))
  }

  ghost predicate Safe(s: System) {
    s.Shaped() && Exclusive(s) && Deferred(s) && Fair(s.ring)
  }

  // The state after task_init with the given number of free mutexes.
  function Start(mutexes: nat): System {
    System(Ring([Slot(0, 0)], 0), [Proc(Running, {})], seq(mutexes, _ => 0))
  }

  // The current task wins mutex m, whose word was not 1.
  lemma WinningIsExclusive(s: System, m: nat, pc: Pc)
    requires s.Shaped() && Exclusive(s) && m < |s.words| && s.words[m] == 0
    ensures Exclusive(WithMe(WithWord(s, m, 1), Proc(pc, Me(s).held + {m})))
  {
    var r := WithMe(WithWord(s, m, 1), Proc(pc, Me(s).held + {m}));
    assert forall i :: !Holds(s, i, m);
    assert forall i, k :: Holds(r, i, k) <==> Holds(s, i, k) || (k == m && i == s.ring.cur);
    forall k | 0 <= k < |s.words|
      ensures r.words[k] == 1 <==> exists i :: Holds(r, i, k)
    {
      if k == m {
        assert Holds(r, s.ring.cur, m);
      } else if i :| Holds(s, i, k) {
        assert Holds(r, i, k);
      }
    }
  }

  lemma UnlockingIsExclusive(s: System, m: nat)
    requires s.Shaped() && Exclusive(s) && m < |s.words| && m in Me(s).held
    ensures Exclusive(WithMe(WithWord(s, m, 0), Proc(Running, Me(s).held - {m})))
  {
    var r := WithMe(WithWord(s, m, 0), Proc(Running, Me(s).held - {m}));
    assert Holds(s, s.ring.cur, m);
    forall i: nat, k: nat
      ensures Holds(r, i, k) <==> Holds(s, i, k) && k != m
    {
      if i != s.ring.cur && i < |s.procs| {
        assert r.procs[i] == s.procs[i];
        assert !(Holds(s, i, m) && Holds(s, s.ring.cur, m));
      }
    }
    forall k | 0 <= k < |s.words|
      ensures r.words[k] == 1 <==> exists i :: Holds(r, i, k)
    {
      if k != m {
        if i :| Holds(s, i, k) {
          assert Holds(r, i, k);
        }
      }
    }
  }

  // The other steps change neither words nor holders.
  lemma SameHoldersIsExclusive(s: System, r: System)
    requires Exclusive(s) && r.words == s.words
    requires forall i, k :: Holds(r, i, k) <==> Holds(s, i, k)
    ensures Exclusive(r)
  {
    forall k | 0 <= k < |s.words|
      ensures r.words[k] == 1 <==> exists i :: Holds(r, i, k)
    {
      if i :| Holds(s, i, k) {
        assert Holds(r, i, k);
      }
    }
  }

  // Where task i of the longer ring was before the new one came in after `at`.
  function Before(at: nat, i: nat): nat {
    if i <= at then i else i - 1
  }

  function After(at: nat, i: nat): nat {
    if i <= at then i else i + 1
  }

  ghost predicate Widened<T>(s: seq<T>, r: seq<T>, at: nat, x: T) {
    && |r| == |s| + 1 && at < |s| && r[at + 1] == x
    && (forall i :: 0 <= i < |r| && i != at + 1 ==> r[i] == s[Before(at, i)])
  }

  lemma SplicedWidens<T>(s: seq<T>, at: nat, x: T)
    requires at < |s|
    ensures Widened(s, Spliced(s, at, x), at, x)
  {
    var r := Spliced(s, at, x);
    forall i | 0 <= i < |r| && i != at + 1
      ensures r[i] == s[Before(at, i)]
    {
      if i > at + 1 {
        assert r[i] == s[at + 1..][i - at - 2];
      }
    }
  }

  lemma ForkIsExclusive(s: System, r: System, at: nat)
    requires Exclusive(s) && r.words == s.words && Widened(s.procs, r.procs, at, Proc(Running, {}))
    ensures Exclusive(r)
  {
    forall i: nat, k: nat
      ensures Holds(r, i, k) ==> i != at + 1 && Holds(s, Before(at, i), k)
      ensures Holds(s, i, k) ==> Holds(r, After(at, i), k)
    {
      assert Before(at, After(at, i)) == i;
    }
    hide Widened;
    forall k | 0 <= k < |s.words|
      ensures r.words[k] == 1 <==> exists i :: Holds(r, i, k)
    {
      if i :| Holds(s, i, k) {
        assert Holds(r, After(at, i), k);
      }
    }
  }

  lemma ForkIsSafe(s: System)
    requires Safe(s) && Enabled(s, Fork)
    ensures Safe(Act(s, Fork))
  {
    var r := Act(s, Fork);
    SplicedWidens(s.procs, s.ring.cur, Proc(Running, {}));
    SplicedWidens(s.ring.slots, s.ring.cur, Slot(0, 0));
    ForkIsExclusive(s, r, s.ring.cur);
    hide Spliced, Exclusive;
  }

  lemma StepIsSafe(s: System, a: Action)
    requires Safe(s) && Enabled(s, a)
    ensures Safe(Act(s, a))
  {
    var r := Act(s, a);
    match a
    case TimerTick =>
      TickKeepsFair(s.ring);
      SameHoldersIsExclusive(s, r);
    case Fork => ForkIsSafe(s);
    case EnterLock(m) => SameHoldersIsExclusive(s, r);
    case LeaveLock => SameHoldersIsExclusive(s, r);
    case Exchange =>
      if s.words[Me(s).pc.m] == 0 {
        WinningIsExclusive(s, Me(s).pc.m, Acquired(Me(s).pc.m));
      } else {
        SameHoldersIsExclusive(s, r);
      }
    case TryLock(m) =>
      if s.words[m] == 0 {
        WinningIsExclusive(s, m, Running);
      } else {
        SameHoldersIsExclusive(s, r);
      }
    case Unlock(m) => UnlockingIsExclusive(s, m);
  }

  // --- Whole runs ---

  ghost predicate CanRun(s: System, actions: seq<Action>)
    decreases |actions|
  {
    s.Shaped() && (actions == [] || (Enabled(s, actions[0]) && CanRun(Act(s, actions[0]), actions[1..])))
  }

  ghost function Final(s: System, actions: seq<Action>): (r: System)
    requires CanRun(s, actions)
    ensures r.Shaped()
    decreases |actions|
  {
    if actions == [] then s else Final(Act(s, actions[0]), actions[1..])
  }

  lemma {:induction false} RunIsSafe(s: System, actions: seq<Action>)
    requires Safe(s) && CanRun(s, actions)
    ensures Safe(Final(s, actions))
    decreases |actions|
  {
    if actions != [] {
      StepIsSafe(s, actions[0]);
      RunIsSafe(Act(s, actions[0]), actions[1..]);
    }
  }

  // Over every interleaving from start-up: no mutex has two holders, a word is 1
  // exactly when somebody holds the mutex, nobody's age exceeds its priority,
  // the task that runs has age 0, and the tasks inside lock, and only they, have
  // priority 15, the others 0.
  lemma MutualExclusion(mutexes: nat, actions: seq<Action>)
    requires CanRun(Start(mutexes), actions)
    ensures var s := Final(Start(mutexes), actions);
            && (forall i, j, m :: Holds(s, i, m) && Holds(s, j, m) ==> i == j)
            && (forall m :: 0 <= m < |s.words| ==> (s.words[m] == 1 <==> exists i :: Holds(s, i, m)))
            && Fair(s.ring)
            && (forall i :: 0 <= i < |s.procs| ==>
                  s.ring.slots[i].priority == if s.procs[i].pc.Running? then 0 else 15)
  {
    var start := Start(mutexes);
    assert forall i, m :: !Holds(start, i, m);
    assert Safe(start);
    RunIsSafe(start, actions);
  }

  // A turn of the xchg loop takes the mutex exactly when nobody holds it.
  lemma ExchangeWinsIfFree(s: System)
    requires Safe(s) && Enabled(s, Exchange)
    ensures var m := Me(s).pc.m;
            Holds(Act(s, Exchange), s.ring.cur, m) && Me(Act(s, Exchange)).pc.Acquired?
            <==> !exists i :: Holds(s, i, m)
  {
    assert s.words[Me(s).pc.m] == 0 || s.words[Me(s).pc.m] == 1;
  }

  function Ticks(actions: seq<Action>): nat {
    if actions == [] then 0 else (if actions[0].TimerTick? then 1 else 0) + Ticks(actions[1..])
  }

  // As long as no task is added, nobody starves: in any stretch of 16 * N timer
  // ticks every one of the N tasks runs, waiters included.
  lemma EveryTaskRuns(s: System, actions: seq<Action>, t: nat)
    requires Safe(s) && CanRun(s, actions) && Fork !in actions
    requires t < |s.procs| && Ticks(actions) >= 16 * |s.procs|
    ensures exists k :: 0 <= k <= |actions| && CanRun(s, actions[..k]) && Final(s, actions[..k]).ring.cur == t
  {
    var n, w := |s.procs|, Wait(s.ring.slots[t]);
    FewLaps(n, w);
    RunsOrSpends(s, actions, t);
  }

  lemma FewLaps(n: nat, w: nat)
    requires w <= 15
    ensures Laps(n, w) <= 15 * n
  {
    LapsRise(n, w, 15);
    LapsAreProduct(n, 15);
  }

  lemma {:induction false} LapsRise(n: nat, w: nat, v: nat)
    requires w <= v
    ensures Laps(n, w) <= Laps(n, v)
  {
    if w < v {
      LapsRise(n, w, v - 1);
    }
  }

  // A run of more ticks than task t has patience for reaches it.
  lemma {:induction false} RunsOrSpends(s: System, actions: seq<Action>, t: nat)
    requires Safe(s) && CanRun(s, actions) && Fork !in actions
    requires t < |s.procs| && Ticks(actions) >= Patience(s.ring, t)
    ensures exists k :: 0 <= k <= |actions| && CanRun(s, actions[..k]) && Final(s, actions[..k]).ring.cur == t
    decreases |actions|
  {
    if s.ring.cur == t {
      assert actions[..0] == [];
      assert CanRun(s, actions[..0]) && Final(s, actions[..0]).ring.cur == t;
    } else {
      var next := Act(s, actions[0]);
      StepIsSafe(s, actions[0]);
      StepSpendsPatience(s, actions[0], t);
      if next.ring.cur == t {
        Prefixed(s, actions, 0);
      } else {
        RunsOrSpends(next, actions[1..], t);
        var k :| 0 <= k <= |actions[1..]| && CanRun(next, actions[1..][..k]) && Final(next, actions[1..][..k]).ring.cur == t;
        Prefixed(s, actions, k);
      }
    }
  }

  lemma Prefixed(s: System, actions: seq<Action>, k: nat)
    requires actions != [] && Enabled(s, actions[0]) && k < |actions|
    requires CanRun(Act(s, actions[0]), actions[1..][..k])
    ensures CanRun(s, actions[..k + 1])
    ensures Final(s, actions[..k + 1]) == Final(Act(s, actions[0]), actions[1..][..k])
  {
    assert actions[..k + 1][0] == actions[0] && actions[..k + 1][1..] == actions[1..][..k];
  }

  lemma StepSpendsPatience(s: System, a: Action, t: nat)
    requires Safe(s) && Enabled(s, a) && !a.Fork? && t < |s.procs| && s.ring.cur != t
    ensures var r := Act(s, a);
            && |r.procs| == |s.procs|
            && (r.ring.cur == t || Patience(r.ring, t) <= Patience(s.ring, t) - if a.TimerTick? then 1 else 0)
  {
    TickSpendsPatience(s.ring, t);
  }

  // --- What waiting costs ---

  // Task t stays inside lock, or outside it, over the whole run.
  ghost predicate Stays(s: System, actions: seq<Action>, t: nat, inside: bool)
    requires CanRun(s, actions)
    decreases |actions|
  {
    && t < |s.procs| && s.procs[t].pc.Running? == !inside
    && (actions != [] ==> Stays(Act(s, actions[0]), actions[1..], t, inside))
  }

  // The ring as the timer finds it, tick by tick, and at the end.
  ghost function RingsOf(s: System, actions: seq<Action>): (run: seq<Ring>)
    requires CanRun(s, actions)
    ensures run != [] && forall i :: 0 <= i < |run| ==> run[i].Valid()
    decreases |actions|
  {
    if actions == [] then [s.ring]
    else
      var rest := RingsOf(Act(s, actions[0]), actions[1..]);
      if actions[0].TimerTick? then [s.ring] + rest else rest
  }

  // Between ticks nothing happens to a task that neither enters nor leaves lock.
  lemma {:induction false} BetweenTicks(s: System, a: Action, t: nat, inside: bool)
    requires Safe(s) && Enabled(s, a) && !a.Fork? && !a.TimerTick? && t < |s.procs|
    requires s.procs[t].pc.Running? == !inside && Act(s, a).procs[t].pc.Running? == !inside
    ensures Undisturbed(s.ring, Act(s, a).ring, t)
  {
    hide Exclusive;
  }

  lemma {:induction false} RunTurns(s: System, actions: seq<Action>, t: nat, inside: bool)
    requires Safe(s) && CanRun(s, actions) && Fork !in actions && Stays(s, actions, t, inside)
    ensures Turns(RingsOf(s, actions), t) && Undisturbed(s.ring, RingsOf(s, actions)[0], t)
    decreases |actions|
  {
    if actions != [] {
      var a, next := actions[0], Act(s, actions[0]);
      StepIsSafe(s, a);
      RunTurns(next, actions[1..], t, inside);
      var rest := RingsOf(next, actions[1..]);
      if a.TimerTick? {
        TurnBefore(s.ring, rest, t);
      } else {
        BetweenTicks(s, a, t, inside);
      }
    }
  }

  lemma {:induction false} TurnBefore(r: Ring, rest: seq<Ring>, t: nat)
    requires r.Valid() && t < |r.slots| && Turns(rest, t) && Undisturbed(Tick(r), rest[0], t)
    ensures Turns([r] + rest, t)
  {
    hide Tick;
    var run := [r] + rest;
    forall i | 0 < i < |run|
      ensures Undisturbed(Tick(run[i - 1]), run[i], t)
    {
      if i > 1 {
        assert run[i - 1] == rest[i - 2] && run[i] == rest[i - 1];
      }
    }
  }

  // A task inside lock is chosen at one visit of the cursor in 16, and one outside at
  // every visit, over any run without forks and whatever the other tasks do.
  lemma {:induction false} WaitersDefer(s: System, actions: seq<Action>, t: nat, inside: bool)
    requires Safe(s) && CanRun(s, actions) && Fork !in actions && Stays(s, actions, t, inside)
    ensures var run := RingsOf(s, actions);
            Turns(run, t) &&
            TimesChosen(run, t) == if inside then (s.ring.slots[t].age + TimesVisited(run, t)) / 16
                                   else TimesVisited(run, t)
  {
    hide Tick, TimesVisited, TimesChosen, RingsOf, Exclusive;
    RunTurns(s, actions, t, inside);
    ExactShare(RingsOf(s, actions), t);
  }
}
