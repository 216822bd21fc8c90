// The round-robin scheduler with priority ageing of src/task.c.
module Tasks {
  import opened Words

  import Decimal

  // The scheduling fields of one task.
  datatype Slot = Slot(priority: u32, age: u32)

  // The ring in `next` order, and where current_task stands in it.
  datatype Ring = Ring(slots: seq<Slot>, cur: nat)
  {
    ghost predicate Valid() {
      cur < |slots|
    }
  }

  function Succ(i: nat, n: nat): (j: nat)
    requires i < n
    ensures j < n
  {
    if i + 1 == n then 0 else i + 1
  }

  // How far a task is from being due.
  function Wait(s: Slot): nat {
    if s.priority > s.age then s.priority - s.age else 0
  }

  function Slack(slots: seq<Slot>): nat {
    if slots == [] then 0 else Wait(slots[0]) + Slack(slots[1..])
  }

  function Older(s: Slot): (r: Slot)
    requires s.priority > s.age
    ensures Wait(r) == Wait(s) - 1
  {
    var age: u32 := s.age + 1;
    Slot(s.priority, age)
  }

  lemma {:induction false} SlackDrops(slots: seq<Slot>, i: nat)
    requires i < |slots| && slots[i].priority > slots[i].age
    ensures Slack(slots[i := Older(slots[i])]) == Slack(slots) - 1
  {
    if i > 0 {
      SlackDrops(slots[1..], i - 1);
      assert slots[i := Older(slots[i])][1..] == slots[1..][i - 1 := Older(slots[i])];
    } else {
      assert slots[0 := Older(slots[0])][1..] == slots[1..];
    }
  }

  // Where the cursor comes to rest: tasks that are not due are aged and passed by.
  function Settle(r: Ring): (s: Ring)
    requires r.Valid()
    ensures s.Valid() && |s.slots| == |r.slots|
    decreases Slack(r.slots)
  {
    var here := r.slots[r.cur];
    if here.priority > here.age then
      SlackDrops(r.slots, r.cur);
      Settle(Ring(r.slots[r.cur := Older(here)], Succ(r.cur, |r.slots|)))
    else
      Ring(r.slots[r.cur := Slot(here.priority, 0)], r.cur)
  }

  lemma SettleStep(r: Ring)
    requires r.Valid()
    ensures var here := r.slots[r.cur];
            if here.priority > here.age then
              && Slack(r.slots[r.cur := Older(here)]) < Slack(r.slots)
              && Settle(r) == Settle(Ring(r.slots[r.cur := Older(here)], Succ(r.cur, |r.slots|)))
            else Settle(r) == Ring(r.slots[r.cur := Slot(here.priority, 0)], r.cur)
  {
    if r.slots[r.cur].priority > r.slots[r.cur].age {
      SlackDrops(r.slots, r.cur);
    }
  }

  // One call of incr_task.
  function Tick(r: Ring): (s: Ring)
    requires r.Valid()
    ensures s.Valid() && |s.slots| == |r.slots|
  {
    Settle(Ring(r.slots, Succ(r.cur, |r.slots|)))
  }

  // How often the cursor stops at task t on the way.
  function Stops(r: Ring, t: nat): nat
    requires r.Valid()
    decreases Slack(r.slots)
  {
    var here := r.slots[r.cur];
    (if r.cur == t then 1 else 0) +
    if here.priority > here.age then
      SlackDrops(r.slots, r.cur);
      Stops(Ring(r.slots[r.cur := Older(here)], Succ(r.cur, |r.slots|)), t)
    else 0
  }

  function Visits(r: Ring, t: nat): nat
    requires r.Valid()
  {
    Stops(Ring(r.slots, Succ(r.cur, |r.slots|)), t)
  }

  // Every stop of the cursor ages the task by one, until it is due and chosen.
  ghost predicate Aged(before: Ring, stops: nat, after: Ring, t: nat)
  {
    && t < |before.slots| == |after.slots|
    && var was, now := before.slots[t], after.slots[t];
    && now.priority == was.priority
    && (if after.cur == t then was.age + stops == was.priority + 1 && now.age == 0
        else was.age + stops == now.age <= now.priority)
  }

  lemma {:induction false} SettleAges(r: Ring, t: nat)
    requires r.Valid() && t < |r.slots| && r.slots[t].age <= r.slots[t].priority
    ensures Aged(r, Stops(r, t), Settle(r), t)
    decreases Slack(r.slots)
  {
    var here := r.slots[r.cur];
    if here.priority > here.age {
      SlackDrops(r.slots, r.cur);
      SettleAges(Ring(r.slots[r.cur := Older(here)], Succ(r.cur, |r.slots|)), t);
    }
  }

  // The invariant of the ring: nobody is older than its priority, and the
  // task that runs has age 0.
  ghost predicate Fair(r: Ring) {
    && r.Valid()
    && (forall i :: 0 <= i < |r.slots| ==> r.slots[i].age <= r.slots[i].priority)
    && r.slots[r.cur].age == 0
  }

  lemma TickKeepsFair(r: Ring)
    requires Fair(r)
    ensures Fair(Tick(r))
    ensures forall i :: 0 <= i < |r.slots| ==> Tick(r).slots[i].priority == r.slots[i].priority
  {
    var s := Tick(r);
    forall i | 0 <= i < |r.slots|
      ensures s.slots[i].priority == r.slots[i].priority && s.slots[i].age <= s.slots[i].priority
      ensures i == s.cur ==> s.slots[i].age == 0
    {
      SettleAges(Ring(r.slots, Succ(r.cur, |r.slots|)), i);
    }
  }

  // --- Runs: a call of incr_task, then anything that leaves task t alone ---

  ghost predicate Undisturbed(r: Ring, s: Ring, t: nat) {
    && r.Valid() && s.Valid() && |r.slots| == |s.slots| && t < |r.slots|
    && s.cur == r.cur && s.slots[t] == r.slots[t]
  }

  ghost predicate Turns(run: seq<Ring>, t: nat) {
    && run != [] && (forall i :: 0 <= i < |run| ==> run[i].Valid())
    && t < |run[0].slots|
    && (forall i :: 0 < i < |run| ==> Undisturbed(Tick(run[i - 1]), run[i], t))
  }

  ghost function TimesVisited(run: seq<Ring>, t: nat): nat
    requires forall i :: 0 <= i < |run| ==> run[i].Valid()
  {
    if |run| <= 1 then 0 else Visits(run[|run| - 2], t) + TimesVisited(run[..|run| - 1], t)
  }

  ghost function TimesChosen(run: seq<Ring>, t: nat): nat {
    if |run| <= 1 then 0 else (if run[|run| - 1].cur == t then 1 else 0) + TimesChosen(run[..|run| - 1], t)
  }

  // n * w, as w laps of n steps.
  function Laps(n: nat, w: nat): nat {
    if w == 0 then 0 else n + Laps(n, w - 1)
  }

  lemma {:induction false} LapsAreProduct(n: nat, w: nat)
    ensures Laps(n, w) == n * w
  {
    if w > 0 {
      LapsAreProduct(n, w - 1);
      assert n * w == n * (w - 1) + n;
    }
  }

  // With n visits of the cursor a task of constant priority p and starting age a
  // is chosen (a + n) div (p + 1) times and ends with age (a + n) mod (p + 1).
  lemma ExactShare(run: seq<Ring>, t: nat)
    requires Turns(run, t)
    requires run[0].slots[t].age <= run[0].slots[t].priority
    ensures |run[|run| - 1].slots| == |run[0].slots|
    ensures var p, a, n := run[0].slots[t].priority, run[0].slots[t].age, TimesVisited(run, t);
            TimesChosen(run, t) == (a + n) / (p + 1) && run[|run| - 1].slots[t].age == (a + n) % (p + 1)
  {
    hide TimesVisited, TimesChosen, Laps;
    ShareSoFar(run, t);
    var p: int := run[0].slots[t].priority;
    LapsAreProduct(p + 1, TimesChosen(run, t));
    Decimal.Uniquely(run[0].slots[t].age + TimesVisited(run, t), p + 1, TimesChosen(run, t), run[|run| - 1].slots[t].age);
  }

  lemma {:induction false} ShareSoFar(run: seq<Ring>, t: nat)
    requires Turns(run, t)
    requires run[0].slots[t].age <= run[0].slots[t].priority
    ensures var last := run[|run| - 1];
            && |last.slots| == |run[0].slots|
            && last.slots[t].priority == run[0].slots[t].priority
            && last.slots[t].age <= last.slots[t].priority
            && run[0].slots[t].age + TimesVisited(run, t)
               == Laps(run[0].slots[t].priority + 1, TimesChosen(run, t)) + last.slots[t].age
  {
    hide Tick, Visits, Undisturbed, TimesVisited, TimesChosen, Laps;
    CountsOfLast(run, t, run[0].slots[t].priority + 1);
    if |run| > 1 {
      var front := run[..|run| - 1];
      var was, last := front[|front| - 1], run[|run| - 1];
      ShareSoFar(front, t);
      assert Undisturbed(Tick(was), last, t);
      OneTurn(was, last, t);
    }
  }

  // What the last turn of a run adds to the counts.
  lemma CountsOfLast(run: seq<Ring>, t: nat, n: nat)
    requires run != [] && forall i :: 0 <= i < |run| ==> run[i].Valid()
    ensures |run| == 1 ==> TimesVisited(run, t) == Laps(n, TimesChosen(run, t)) == 0
    ensures |run| > 1 ==>
              && TimesVisited(run, t) == Visits(run[|run| - 2], t) + TimesVisited(run[..|run| - 1], t)
              && Laps(n, TimesChosen(run, t))
                 == (if run[|run| - 1].cur == t then n else 0) + Laps(n, TimesChosen(run[..|run| - 1], t))
  {
  }

  lemma OneTurn(was: Ring, last: Ring, t: nat)
    requires was.Valid() && Undisturbed(Tick(was), last, t) && was.slots[t].age <= was.slots[t].priority
    ensures |last.slots| == |was.slots| && last.slots[t].priority == was.slots[t].priority
    ensures last.slots[t].age <= last.slots[t].priority
    ensures was.slots[t].age + Visits(was, t)
            == (if last.cur == t then last.slots[t].priority + 1 else 0) + last.slots[t].age
  {
    SettleAges(Ring(was.slots, Succ(was.cur, |was.slots|)), t);
  }

  // Cursor moves left until task t is chosen, at most.
  ghost function Patience(r: Ring, t: nat): nat
    requires r.Valid() && t < |r.slots|
  {
    Laps(|r.slots|, Wait(r.slots[t])) + Ahead(r, t)
  }

  // Cursor moves until the next stop at t, counted 1 to N.
  function Ahead(r: Ring, t: nat): (d: nat)
    requires r.Valid() && t < |r.slots|
    ensures 1 <= d <= |r.slots|
  {
    if t > r.cur then t - r.cur else t + |r.slots| - r.cur
  }

  lemma {:induction false} SettleSpendsPatience(r: Ring, t: nat)
    requires r.Valid() && t < |r.slots| && r.slots[t].age <= r.slots[t].priority
    ensures Settle(r).cur != t ==>
              && Settle(r).slots[t].age <= Settle(r).slots[t].priority == r.slots[t].priority
              && Patience(Settle(r), t) <= if r.cur == t then Patience(r, t) - |r.slots| else Patience(r, t)
    decreases Slack(r.slots)
  {
    SettleStep(r);
    var here := r.slots[r.cur];
    if here.priority > here.age {
      SettleSpendsPatience(Ring(r.slots[r.cur := Older(here)], Succ(r.cur, |r.slots|)), t);
    }
    hide Settle, Slack;
  }

  // Each call of incr_task chooses task t or brings it closer.
  lemma TickSpendsPatience(r: Ring, t: nat)
    requires r.Valid() && t < |r.slots| && r.slots[t].age <= r.slots[t].priority
    ensures var s := Tick(r);
            s.cur == t ||
            (s.slots[t].age <= s.slots[t].priority == r.slots[t].priority && Patience(s, t) < Patience(r, t))
  {
    SettleSpendsPatience(Ring(r.slots, Succ(r.cur, |r.slots|)), t);
  }

  // Task t runs within (p - a + 1) * N calls of incr_task, whatever the other
  // tasks' priorities and ages do in between.
  lemma RunsSoon(run: seq<Ring>, t: nat)
    requires Turns(run, t)
    requires run[0].slots[t].age <= run[0].slots[t].priority
    requires |run| > (run[0].slots[t].priority - run[0].slots[t].age + 1) * |run[0].slots|
    ensures exists i :: 1 <= i <= (run[0].slots[t].priority - run[0].slots[t].age + 1) * |run[0].slots| && run[i].cur == t
  {
    var n, w := |run[0].slots|, Wait(run[0].slots[t]);
    var k := (w + 1) * n;
    LapsAreProduct(n, w);
    assert k == n * w + n;
    if forall i :: 1 <= i <= k ==> run[i].cur != t {
      PatienceRunsOut(run, t, k);
    }
  }

  lemma {:induction false} PatienceRunsOut(run: seq<Ring>, t: nat, k: nat)
    requires Turns(run, t) && k < |run|
    requires run[0].slots[t].age <= run[0].slots[t].priority
    requires forall i :: 1 <= i <= k ==> run[i].cur != t
    ensures |run[k].slots| == |run[0].slots|
    ensures run[k].slots[t].age <= run[k].slots[t].priority
    ensures Patience(run[k], t) + k <= Patience(run[0], t)
  {
    if k > 0 {
      PatienceRunsOut(run, t, k - 1);
      TickSpendsPatience(run[k - 1], t);
      assert Undisturbed(Tick(run[k - 1]), run[k], t);
    }
  }

  // --- The linked tasks themselves ---

  class Task {
    var next: Task
    var prev: Task
    var priority: u32
    var age: u32

    // A ring of one (task_init).
    constructor Alone()
      ensures next == this && prev == this && priority == 0 && age == 0
    {
      next := this;
      prev := this;
      priority := 0;
      age := 0;
    }

    constructor (next: Task, prev: Task)
      ensures this.next == next && this.prev == prev && priority == 0 && age == 0
    {
      this.next := next;
      this.prev := prev;
      priority := 0;
      age := 0;
    }
  }

  // `next` leads through exactly the given tasks, in order, and back.
  ghost predicate Cycle(ring: seq<Task>)
    reads ring
  {
    && Distinct(ring)
    && (forall i :: 0 <= i < |ring| ==> ring[i].next == ring[Succ(i, |ring|)])
  }

  ghost predicate Distinct(ring: seq<Task>) {
    forall i, j :: 0 <= i < j < |ring| ==> ring[i] != ring[j]
  }

  // All links are in place except that of task `at`, which leads to `other`.
  ghost predicate Linked(ring: seq<Task>, at: nat, other: Task)
    reads ring
  {
    at < |ring| && forall i :: 0 <= i < |ring| ==> ring[i].next == if i == at then other else ring[Succ(i, |ring|)]
  }

  lemma CycleIsLinked(ring: seq<Task>, at: nat)
    requires Cycle(ring) && at < |ring|
    ensures Distinct(ring) && ring[at].next == ring[Succ(at, |ring|)]
    ensures Linked(ring, at, ring[Succ(at, |ring|)])
  {
  }

  function Spliced<T>(s: seq<T>, at: nat, x: T): (r: seq<T>)
    requires at < |s|
    ensures |r| == |s| + 1 && r[at] == s[at]
  {
    s[..at + 1] + [x] + s[at + 1..]
  }

  // The slots of a ring with one more task in it.
  lemma SplicedSlots(was: seq<Task>, slots: seq<Slot>, at: nat, child: Task)
    requires at < |was| && Slots(was) == slots && Slot(child.priority, child.age) == Slot(0, 0)
    ensures Slots(Spliced(was, at, child)) == Spliced(slots, at, Slot(0, 0))
  {
    var ring := Spliced(was, at, child);
    var s := Spliced(slots, at, Slot(0, 0));
    forall i | 0 <= i < |ring|
      ensures Slots(ring)[i] == s[i]
    {
      if i > at + 1 {
        assert s[i] == slots[at + 1..][i - at - 2];
        assert ring[i] == was[i - 1];
      }
    }
  }

  lemma LoneRing(slots: seq<Slot>)
    requires |slots| == 1 && slots[0] == Slot(0, 0)
    ensures slots == [Slot(0, 0)] && Fair(Ring(slots, 0))
  {
  }

  lemma SpliceCycle(was: seq<Task>, at: nat, child: Task)
    requires at < |was| && Distinct(was) && Linked(was, at, child) && child !in was
    requires child.next == was[Succ(at, |was|)]
    ensures Cycle(Spliced(was, at, child))
  {
    var ring := Spliced(was, at, child);
    forall i | 0 <= i < |ring|
      ensures ring[i].next == ring[Succ(i, |ring|)]
    {
      if i > at + 1 {
        assert ring[i] == was[i - 1];
      }
    }
  }

  ghost function Slots(ring: seq<Task>): (s: seq<Slot>)
    reads ring
    ensures |s| == |ring|
    ensures forall i :: 0 <= i < |ring| ==> s[i] == Slot(ring[i].priority, ring[i].age)
  {
    seq(|ring|, i requires 0 <= i < |ring| reads ring => Slot(ring[i].priority, ring[i].age))
  }

  class Scheduler {
    var current: Task
    ghost var ring: seq<Task>
    ghost var at: nat

    ghost predicate Valid()
      reads this, ring
    {
      at < |ring| && ring[at] == current && Cycle(ring)
    }

    ghost function View(): Ring
      reads this, ring
    {
      Ring(Slots(ring), at)
    }

    // task_init
    constructor ()
      ensures Valid() && fresh(current) && ring == [current]
      ensures View() == Ring([Slot(0, 0)], 0) && Fair(View())
    {
      hide Settle, Tick, Slack, Slots, Fair;
      var root := new Task.Alone();
      current := root;
      ring := [root];
      at := 0;
      new;
      LoneRing(Slots(ring));
    }

    // move_stack: the new task comes right after the current one. The prev link of
    // the old successor is left as it was.
    method MoveStack() returns (child: Task)
      requires Valid()
      modifies this`ring, current`next
      ensures Valid() && fresh(child) && current == old(current)
      ensures at == old(at) && ring == Spliced(old(ring), at, child)
      ensures View() == Forked(old(View()))
    {
      hide Cycle, Slots, Spliced;
      ghost var was := ring;
      CycleIsLinked(was, at);
      child := new Task(current.next, current);
      current.next := child;
      assert Linked(was, at, child);
      SpliceCycle(was, at, child);
      SplicedSlots(was, old(Slots(ring)), at, child);
      ring := Spliced(ring, at, child);
    }

    method Advance()
      requires Valid()
      modifies this`current, this`at
      ensures Valid() && ring == old(ring)
      ensures View() == Ring(old(View()).slots, Succ(old(at), |ring|))
    {
      current := current.next;
      at := Succ(at, |ring|);
    }

    method SetAge(age: u32)
      requires Valid()
      modifies current`age
      ensures Valid()
      ensures View() == Ring(old(View()).slots[at := Slot(current.priority, age)], at)
    {
      ghost var was := View();
      current.age := age;
      assert Slots(ring) == was.slots[at := Slot(current.priority, age)];
    }

    // One turn of the loop: a task that is not due is aged and passed by.
    method PassBy()
      requires Valid() && current.priority > current.age
      modifies this`current, this`at, ring`age
      ensures Valid() && ring == old(ring) && Settle(View()) == Settle(old(View()))
      ensures Slack(View().slots) < old(Slack(View().slots))
    {
      hide Settle, Slack, Cycle;
      SettleStep(View());
      SetAge(current.age + 1);
      Advance();
    }

    // incr_task
    method IncrTask()
      requires Valid()
      modifies this`current, this`at, ring`age
      ensures Valid() && ring == old(ring)
      ensures View() == Tick(old(View()))
    {
      hide Settle, Slack, Cycle;
      Advance();
      while current.priority > current.age
        invariant Valid() && ring == old(ring) && Settle(View()) == Tick(old(View()))
        decreases Slack(View().slots)
      {
        PassBy();
      }
      SettleStep(View());
      SetAge(0);
    }

    // The two writes of `priority` in lock (src/mutex.c).
    method SetPriority(p: u32)
      requires Valid()
      modifies current`priority
      ensures Valid() && View() == Reprioritised(old(View()), p) && current.priority == p
    {
      ghost var was := View();
      current.priority := p;
      assert Slots(ring) == Reprioritised(was, p).slots;
    }
  }

  function Forked(r: Ring): Ring
    requires r.Valid()
  {
    Ring(Spliced(r.slots, r.cur, Slot(0, 0)), r.cur)
  }

  function Reprioritised(r: Ring, p: u32): Ring
    requires r.Valid()
  {
    Ring(r.slots[r.cur := Slot(p, r.slots[r.cur].age)], r.cur)
  }
}
