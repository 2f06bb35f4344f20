/** The pick-and-steal part of `schedule_locked` in src/kernel/proc.c over the per-CPU run queues. */
module Scheduling {
  import opened Prelude
  import opened Treap
  import opened TreapLinks
  import opened RunQueues
  import Arith

  const NR_RQ: nat := 4
  const VIRT_UNIT: int := 1024

  /** The virtual time charged for `used` ticks at weight `w`; 1024 is the default weight. */
  function VirtDelta(used: nat, w: nat): nat {
    used * 1048576 / (if w == 0 then 1 else w)
  }

  /** The charge is the number of ticks, in units of 1024 at the default weight of 1024, divided by the weight
      and rounded down. */
  lemma ChargeIs(used: nat, w: nat)
    requires w > 0
    ensures VirtDelta(used, w) * w <= used * VIRT_UNIT * 1024 < VirtDelta(used, w) * w + w
  {
    var x := used * 1048576;
    assert x / w * w + x % w == x;
  }

  /** At the default weight virtual time is real time, so running does not change a task's lag. */
  lemma DefaultWeightIsRealTime(used: nat)
    ensures VirtDelta(used, 1024) == used * VIRT_UNIT
  {
    Arith.DivModUnique(used * 1048576, 1024, used * VIRT_UNIT, 0);
  }

  /** The heavier of two tasks ages no faster. */
  lemma HeavierAgesSlower(used: nat, a: nat, b: nat)
    requires 0 < a <= b
    ensures VirtDelta(used, b) <= VirtDelta(used, a)
  {
    var x := used * 1048576;
    var q := x / b;
    Arith.MulMono(a, b, q);
    assert a * q == q * a && b * q == q * b <= x;
    Arith.DivAtLeast(x, a, q);
  }

  /** The task of `p` at virtual runtime `v` with a fresh slice. */
  function Fresh(p: Proc, v: int, prio: int): Task { Task(p, p.pid, v, v + SLICE, prio) }

  class Scheduler {
    const queues: seq<RunQueue>

    /** Four well-formed queues that share no task. */
    ghost predicate Valid()
      reads this, queues, set q, o | q in queues && o in q.procs :: o
    {
      && |queues| == NR_RQ
      && (forall i | 0 <= i < NR_RQ :: queues[i].Valid())
      && (forall i, j | 0 <= i < j < NR_RQ :: queues[i] != queues[j] && queues[i].procs !! queues[j].procs)
    }

    /** Every queued task. */
    ghost function Queued(): set<Proc>
      requires |queues| == NR_RQ
      reads this, queues
    {
      queues[0].procs + queues[1].procs + queues[2].procs + queues[3].procs
    }

    /** The tasks of every queue, and their clocks. */
    ghost function AllTasks(): (s: seq<seq<Task>>)
      requires |queues| == NR_RQ
      reads this, queues
      ensures |s| == NR_RQ
    {
      [queues[0].Tasks(), queues[1].Tasks(), queues[2].Tasks(), queues[3].Tasks()]
    }

    ghost function Clocks(): (s: seq<int>)
      requires |queues| == NR_RQ
      reads this, queues
      ensures |s| == NR_RQ
    {
      [queues[0].vtime, queues[1].vtime, queues[2].vtime, queues[3].vtime]
    }

    constructor ()
      ensures Valid() && Queued() == {}
    {
      hide RunQueue.Valid;
      var q0 := new RunQueue();
      var q1 := new RunQueue();
      var q2 := new RunQueue();
      var q3 := new RunQueue();
      queues := [q0, q1, q2, q3];
    }

    /** A fullest non-empty queue other than `my`, if there is one. */
    method Fullest(my: nat) returns (best: Option<nat>)
      requires Valid() && my < NR_RQ
      ensures best.None? ==> forall i | 0 <= i < NR_RQ && i != my :: queues[i].procs == {}
      ensures best.Some? ==>
                && best.value < NR_RQ && best.value != my && queues[best.value].procs != {}
                && forall i | 0 <= i < NR_RQ && i != my :: queues[i].count <= queues[best.value].count
    {
      best := None;
      for i := 0 to NR_RQ
        invariant best.None? ==> forall k | 0 <= k < i && k != my :: queues[k].count == 0
        invariant best.Some? ==>
                    && best.value < i && best.value != my && queues[best.value].count > 0
                    && forall k | 0 <= k < i && k != my :: queues[k].count <= queues[best.value].count
      {
        if i != my && queues[i].count != 0 && (best.None? || queues[i].count > queues[best.value].count) {
          best := Some(i);
        }
      }
      forall i | 0 <= i < NR_RQ ensures queues[i].count == 0 <==> queues[i].procs == {} {
        queues[i].EmptyQueue();
      }
    }

    /** Takes the best task off queue `i`, leaving the other queues as they were. */
    method PickFrom(i: nat) returns (pick: Proc?, ghost k: nat)
      requires Valid() && i < NR_RQ
      modifies queues[i], (queues[i].procs)`tl, (queues[i].procs)`tr, (queues[i].procs)`vlag
      ensures Valid() && Clocks() == old(Clocks())
      ensures pick == null <==> old(queues[i].procs) == {}
      ensures pick == null ==>
                && Queued() == old(Queued()) && queues[i].procs == old(queues[i].procs)
                && AllTasks() == old(AllTasks()) && AllTasks()[i] == []
      ensures pick != null ==>
                && pick in old(queues[i].procs) && queues[i].procs == old(queues[i].procs) - {pick}
                && Queued() == old(Queued()) - {pick}
                && pick.vlag == queues[i].vtime - pick.vruntime
                && k < |old(AllTasks())[i]| && old(AllTasks())[i][k] == TaskOf(pick)
                && IsBest(old(AllTasks())[i], Clocks()[i], TaskOf(pick))
                && AllTasks() == old(AllTasks())[i := Without(old(AllTasks())[i], k)]
      ensures queues[i].minVtime >= old(queues[i].minVtime)
      ensures forall o <- old(queues[i].procs) | o != pick :: o.vlag == old(o.vlag)
    {
      hide RunQueue.Valid, IsBest, Without, InOrder;
      ghost var before := queues[i].procs;
      queues[i].EmptyQueue();
      pick, k := queues[i].PickBest();
      forall j | 0 <= j < NR_RQ && j != i
        ensures queues[j].Valid() && queues[j].procs == old(queues[j].procs)
        ensures queues[j].Tasks() == old(queues[j].Tasks()) && queues[j].vtime == old(queues[j].vtime)
      {
        assert queues[j] != queues[i] && queues[j].procs !! before;
      }
    }

    /** Takes the best task of a fullest other queue and moves it onto this CPU's clock, keeping its
        lag. */
    method Steal(my: nat) returns (next: Proc?, ghost from: nat, ghost k: nat)
      requires Valid() && my < NR_RQ && queues[my].procs == {}
      modifies queues, Queued()`tl, Queued()`tr, Queued()`vlag, Queued()`vruntime
      ensures Valid() && Clocks() == old(Clocks())
      ensures OthersStay(old(Queued()), next)
      ensures next == null <==> old(Queued()) == {}
      ensures next == null ==> Queued() == old(Queued()) && AllTasks() == old(AllTasks())
      ensures from < NR_RQ
      ensures next != null ==> next in old(queues[from].procs) && Queued() == old(Queued()) - {next}
      ensures next != null ==> Taken(my, from, k, next, old(AllTasks())) && Source(my, from, old(AllTasks()))
    {
      hide RunQueue.Valid, IsBest, Without, InOrder, Taken;
      from, k := my, 0;
      next := null;
      CountsAre();
      queues[my].EmptyQueue();
      var best := Fullest(my);
      if best.Some? {
        from := best.value;
        next, k := StealFrom(best.value, my);
      }
    }

    /** Takes the best task of queue `i` and moves it onto `my`'s clock. */
    method StealFrom(i: nat, my: nat) returns (next: Proc, ghost k: nat)
      requires Valid() && i < NR_RQ && my < NR_RQ && i != my && queues[i].procs != {}
      modifies queues[i], (queues[i].procs)`tl, (queues[i].procs)`tr, (queues[i].procs)`vlag, (queues[i].procs)`vruntime
      ensures Valid() && Clocks() == old(Clocks())
      ensures next in old(queues[i].procs) && Queued() == old(Queued()) - {next}
      ensures Taken(my, i, k, next, old(AllTasks()))
      ensures OthersStay(old(Queued()), next)
    {
      hide RunQueue.Valid, IsBest, Without, InOrder;
      var pick: Proc?;
      pick, k := PickFrom(i);
      next := pick;
      Rebase(next, my);
    }

    /** No other task is charged or moved. */
    twostate predicate OthersStay(tasks: set<Proc>, new next: Proc?)
      reads tasks
    {
      forall o <- tasks | o != next :: o.vruntime == old(o.vruntime) && o.vlag == old(o.vlag)
    }

    /** Moves a task that is off the queues onto this CPU's clock. */
    method Rebase(p: Proc, my: nat)
      requires Valid() && my < NR_RQ && p !in Queued()
      modifies p`vruntime
      ensures Valid() && p.vlag == Clocks()[my] - p.vruntime
    {
      hide RunQueue.Valid;
      p.vruntime := queues[my].vtime - p.vlag;
      forall i | 0 <= i < NR_RQ ensures queues[i].Valid() {
        assert p !in queues[i].procs;
      }
    }

    lemma CountsAre()
      requires Valid()
      ensures forall i | 0 <= i < NR_RQ :: queues[i].count == |AllTasks()[i]|
    {
    }

    /** The task to run next on CPU `my`: the best of its own queue, else a stolen one. */
    method PickNext(my: nat) returns (next: Proc?, ghost from: nat, ghost k: nat)
      requires Valid() && my < NR_RQ
      modifies queues, Queued()`tl, Queued()`tr, Queued()`vlag, Queued()`vruntime
      ensures Valid() && Clocks() == old(Clocks())
      ensures OthersStay(old(Queued()), next)
      ensures next == null <==> old(Queued()) == {}
      ensures next == null ==> Queued() == old(Queued()) && AllTasks() == old(AllTasks())
      ensures from < NR_RQ
      ensures next != null ==> next in old(queues[from].procs) && Queued() == old(Queued()) - {next}
      ensures next != null ==> Taken(my, from, k, next, old(AllTasks())) && Source(my, from, old(AllTasks()))
    {
      hide RunQueue.Valid, IsBest, Without, InOrder, Taken, Source;
      next, from, k := PickOwn(my);
      if next == null {
        next, from, k := Steal(my);
      }
    }

    /** The best task of the own queue. */
    method PickOwn(my: nat) returns (next: Proc?, ghost from: nat, ghost k: nat)
      requires Valid() && my < NR_RQ
      modifies queues[my], (queues[my].procs)`tl, (queues[my].procs)`tr, (queues[my].procs)`vlag
      ensures Valid() && Clocks() == old(Clocks()) && from == my
      ensures next == null <==> old(queues[my].procs) == {}
      ensures next == null ==>
                && Queued() == old(Queued()) && AllTasks() == old(AllTasks()) && AllTasks()[my] == []
                && queues[my].procs == {}
      ensures next != null ==>
                && next in old(queues[my].procs) && Queued() == old(Queued()) - {next}
                && Taken(my, from, k, next, old(AllTasks())) && Source(my, from, old(AllTasks()))
      ensures OthersStay(old(Queued()), next)
    {
      hide RunQueue.Valid, IsBest, Without, InOrder;
      queues[my].EmptyQueue();
      next, k := PickFrom(my);
      from := my;
    }

    /** The own queue if it has a task, else a fullest other one. */
    ghost predicate Source(my: nat, from: nat, tasks: seq<seq<Task>>)
      requires my < NR_RQ == |tasks|
    {
      && from < NR_RQ
      && if tasks[my] != [] then from == my
         else from != my && forall i | 0 <= i < NR_RQ && i != my :: |tasks[i]| <= |tasks[from]|
    }

    /** `next` was task `k` of queue `from`, and the best one there; it is the only one gone, and its lag there
        is its lag on `my`'s clock. */
    ghost predicate Taken(my: nat, from: nat, k: nat, next: Proc, tasks: seq<seq<Task>>)
      requires my < NR_RQ == |queues| == |tasks|
      reads this, queues, next
    {
      && from < NR_RQ && k < |tasks[from]| && tasks[from][k].p == next
      && IsBest(tasks[from], Clocks()[from], tasks[from][k])
      && AllTasks() == tasks[from := Without(tasks[from], k)]
      && next.vlag == Clocks()[from] - tasks[from][k].vruntime
      && next.vlag == Clocks()[my] - next.vruntime
    }

    /** Charges `prev` for `used` ticks: its virtual runtime advances by weight, the clock of the
        queue it ran on by real time. */
    method Account(prev: Proc, pc: nat, used: nat, weight: nat)
      requires Valid() && pc < NR_RQ && prev !in Queued()
      modifies prev`vruntime, prev`vlag, {queues[pc]}`vtime
      ensures Valid() && Queued() == old(Queued())
      ensures queues[pc].vtime == old(queues[pc].vtime) + used * VIRT_UNIT
      ensures Clocks() == old(Clocks())[pc := old(Clocks())[pc] + used * VIRT_UNIT] && AllTasks() == old(AllTasks())
      ensures prev.vruntime == old(prev.vruntime) + VirtDelta(used, weight)
      ensures prev.vlag == queues[pc].vtime - prev.vruntime
      ensures weight == 1024 ==> prev.vlag == old(queues[pc].vtime) - old(prev.vruntime)
    {
      hide RunQueue.Valid, VirtDelta, InOrder;
      DefaultWeightIsRealTime(used);
      prev.vruntime := prev.vruntime + VirtDelta(used, weight);
      queues[pc].Advance(used * VIRT_UNIT);
      prev.vlag := queues[pc].vtime - prev.vruntime;
      forall i | 0 <= i < NR_RQ ensures queues[i].Valid() {
        assert prev !in queues[i].procs;
      }
    }

    /** Puts `p` on queue `pc`, leaving the other queues as they were. */
    method EnqueueOn(p: Proc, pc: nat)
      requires Valid() && pc < NR_RQ && p !in Queued()
      requires forall o <- Queued() :: o.pid != p.pid
      modifies queues[pc], p, (queues[pc].procs)`tl, (queues[pc].procs)`tr
      ensures Valid() && Queued() == old(Queued()) + {p} && p in queues[pc].procs
      ensures Clocks() == old(Clocks())
      ensures p.vruntime == Max(queues[pc].vtime - old(p.vlag), old(queues[pc].minVtime))
      ensures p.vlag == queues[pc].vtime - p.vruntime && p.deadline == p.vruntime + SLICE && p.tprio == old(p.tprio)
      ensures AllTasks() == old(AllTasks())[pc := InsertSorted(old(AllTasks())[pc], TaskOf(p))]
    {
      hide RunQueue.Valid, InOrder, InsertSorted;
      ghost var before := queues[pc].procs;
      queues[pc].Enqueue(p);
      forall j | 0 <= j < NR_RQ && j != pc
        ensures queues[j].Valid() && queues[j].procs == old(queues[j].procs)
        ensures queues[j].Tasks() == old(queues[j].Tasks()) && queues[j].vtime == old(queues[j].vtime)
      {
        assert queues[j] != queues[pc] && queues[j].procs !! before && p !in queues[j].procs;
      }
    }

    /** Charges the outgoing task and puts it back if it is still running and not throttled: at its charged
        virtual runtime, but not below the floor, with a fresh slice. */
    method PutBack(prev: Proc, running: bool, used: nat, weight: nat, throttled: bool, pc: nat)
      requires Valid() && pc < NR_RQ && prev !in Queued()
      requires forall o <- Queued() :: o.pid != prev.pid
      modifies queues, Queued(), prev
      ensures Valid()
      ensures Queued() == old(Queued()) + if running && !throttled then {prev} else {}
      ensures Clocks() == old(Clocks())[pc := old(Clocks())[pc] + used * VIRT_UNIT]
      ensures running && !throttled ==>
                && prev in queues[pc].procs
                && prev.vruntime == Max(old(prev.vruntime) + VirtDelta(used, weight), old(queues[pc].minVtime))
                && prev.vlag == queues[pc].vtime - prev.vruntime && prev.deadline == prev.vruntime + SLICE
                && AllTasks() == old(AllTasks())[pc := InsertSorted(old(AllTasks())[pc],
                                                            Fresh(prev, prev.vruntime, old(prev.tprio)))]
      ensures running && !throttled && old(prev.deadline) == old(prev.vruntime) + SLICE ==>
                (prev.deadline == old(prev.deadline)
                 <==> VirtDelta(used, weight) == 0 && old(queues[pc].minVtime) <= old(prev.vruntime))
      ensures !running ==> prev.deadline == old(prev.deadline)
      ensures !running || throttled ==>
                && prev.vruntime == old(prev.vruntime) + VirtDelta(used, weight)
                && prev.vlag == queues[pc].vtime - prev.vruntime
                && AllTasks() == old(AllTasks())
    {
      hide RunQueue.Valid, VirtDelta, InOrder, InsertSorted;
      Account(prev, pc, used, weight);
      if running {
        if prev.vruntime >= prev.deadline {
          RenewDeadline(prev);
        }
        if !throttled {
          EnqueueOn(prev, pc);
        }
      }
    }

    /** `schedule_locked` up to the context switch: charge the outgoing task, put it back if it is
        still running and not `throttled`, and choose the next one.  `tasks` is what is queued between the
        two. */
    method Schedule(prev: Proc?, running: bool, used: nat, weight: nat, throttled: bool, pc: nat, my: nat)
      returns (next: Proc?, ghost tasks: seq<seq<Task>>, ghost from: nat, ghost k: nat)
      requires Valid() && pc < NR_RQ && my < NR_RQ
      requires prev != null ==> prev !in Queued() && forall o <- Queued() :: o.pid != prev.pid
      modifies queues, Queued(), prev
      ensures Valid()
      ensures var back := if prev != null && running && !throttled then {prev} else {};
              && (next == null <==> old(Queued()) + back == {})
              && (next == null ==> Queued() == {})
              && (next != null ==> next in old(Queued()) + back && Queued() == old(Queued()) + back - {next})
      ensures Clocks() == if prev == null then old(Clocks())
                          else old(Clocks())[pc := old(Clocks())[pc] + used * VIRT_UNIT]
      ensures |tasks| == NR_RQ
      ensures prev == null || !running || throttled ==> tasks == old(AllTasks())
      ensures prev != null && running && !throttled ==>
                var v := Max(old(prev.vruntime) + VirtDelta(used, weight), old(queues[pc].minVtime));
                && tasks == old(AllTasks())[pc := InsertSorted(old(AllTasks())[pc],
                                                            Fresh(prev, v, old(prev.tprio)))]
                && (next != prev ==> prev.vruntime == v && prev.vlag == Clocks()[pc] - v)
      ensures prev != null && (!running || throttled) ==>
                && prev.vruntime == old(prev.vruntime) + VirtDelta(used, weight)
                && prev.vlag == Clocks()[pc] - prev.vruntime
      ensures next != null ==> Taken(my, from, k, next, tasks) && Source(my, from, tasks)
      ensures next != null && next != prev ==> next.deadline == next.vruntime + SLICE
      ensures next == null ==> AllTasks() == tasks
    {
      hide RunQueue.Valid, IsBest, Without, InOrder, InsertSorted, VirtDelta;
      if prev != null {
        PutBack(prev, running, used, weight, throttled, pc);
      }
      tasks := AllTasks();
      next, from, k := PickNext(my);
      if next != null && next != prev {
        RenewDeadline(next);
      }
    }

    method RenewDeadline(p: Proc)
      requires Valid() && p !in Queued()
      modifies p`deadline
      ensures Valid() && p.deadline == p.vruntime + SLICE
    {
      hide RunQueue.Valid;
      p.deadline := p.vruntime + SLICE;
      forall i | 0 <= i < NR_RQ ensures queues[i].Valid() {
        assert p !in queues[i].procs;
      }
    }
  }
}
