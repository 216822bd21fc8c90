// The steps of Locks as the kernel performs them: on the linked tasks of src/task.c
// and the lock words of src/mutex.c in memory.
module LockSteps {
  import opened Words
  import opened Tasks
  import opened Locks

  // `procs` records what the code being run knows.
  class Kernel {
    const scheduler: Scheduler
    const words: array<u32>
    ghost var procs: seq<Proc>

    ghost predicate Valid()
      reads this, scheduler, scheduler.ring
    {
      scheduler.Valid() && |procs| == |scheduler.ring|
    }

    ghost function View(): System
      reads this, scheduler, scheduler.ring, words
    {
      System(scheduler.View(), procs, words[..])
    }

    constructor (mutexes: nat)
      ensures Valid() && View() == Start(mutexes)
    {
      scheduler := new Scheduler();
      words := new u32[mutexes](_ => 0);
      procs := [Proc(Running, {})];
    }

    method Timer()
      requires Valid()
      modifies scheduler`current, scheduler`at, scheduler.ring`age
      ensures Valid() && View() == Act(old(View()), TimerTick)
    {
      hide Tick;
      scheduler.IncrTask();
    }

    method ForkTask()
      requires Valid() && Enabled(View(), Fork)
      modifies this`procs, scheduler`ring, scheduler.current`next
      ensures Valid() && View() == Act(old(View()), Fork)
    {
      var child := scheduler.MoveStack();
      procs := Spliced(procs, scheduler.at, Proc(Running, {}));
    }

    method EnterLock(ghost m: nat)
      requires Valid() && Enabled(View(), Action.EnterLock(m))
      modifies this`procs, scheduler.current`priority
      ensures Valid() && View() == Act(old(View()), Action.EnterLock(m))
      ensures scheduler.current == old(scheduler.current) && scheduler.current.priority == 15
    {
      procs := procs[scheduler.at := Proc(Waiting(m), procs[scheduler.at].held)];
      scheduler.SetPriority(WAITING);
    }

    // xchgl: the loop goes on as long as the old word was 1.
    method Exchange(m: nat) returns (res: u32)
      requires Valid() && Enabled(View(), Action.Exchange) && Me(View()).pc.m == m
      modifies this`procs, words
      ensures Valid() && View() == Act(old(View()), Action.Exchange)
      ensures res == 1 <==> Me(View()).pc == Waiting(m)
    {
      res := words[m];
      words[m] := 1;
      if res != 1 {
        procs := procs[scheduler.at := Proc(Acquired(m), procs[scheduler.at].held + {m})];
      }
    }

    method LeaveLock()
      requires Valid() && Enabled(View(), Action.LeaveLock)
      modifies this`procs, scheduler.current`priority
      ensures Valid() && View() == Act(old(View()), Action.LeaveLock)
      ensures scheduler.current == old(scheduler.current) && scheduler.current.priority == 0
    {
      procs := procs[scheduler.at := Proc(Running, procs[scheduler.at].held)];
      scheduler.SetPriority(0);
    }

    method TryLock(m: nat) returns (won: bool)
      requires Valid() && Enabled(View(), Action.TryLock(m))
      modifies this`procs, words
      ensures Valid() && View() == Act(old(View()), Action.TryLock(m))
      ensures won == (old(words[m]) == 0)
    {
      won := words[m] == 0;
      words[m] := 1;
      if won {
        procs := procs[scheduler.at := Proc(Running, procs[scheduler.at].held + {m})];
      }
    }

    method Unlock(m: nat)
      requires Valid() && Enabled(View(), Action.Unlock(m))
      modifies this`procs, words
      ensures Valid() && View() == Act(old(View()), Action.Unlock(m))
    {
      words[m] := 0;
      procs := procs[scheduler.at := Proc(Running, procs[scheduler.at].held - {m})];
    }
  }
}
