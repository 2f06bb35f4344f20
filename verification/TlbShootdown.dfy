/** The cross-CPU TLB shootdown of src/kernel/smp.c, as interleaved atomic steps of any number of
    CPUs: each runs shootdowns and is interrupted at any time by NMIs, wanted, spurious or late. */
module TlbShootdown {
  import opened Prelude

  /** Epochs are 32-bit counters; 0 is never used for a call. */
  const EPOCHS: nat := 0x1_0000_0000

  type Cpu = nat

  /** Where a CPU stands in `smp_tlb_shootdown_all`, with the call's own epoch. */
  datatype Main =
    | Idle
    | Locked
    | Published(epoch: nat)
    | Raised(epoch: nat)
    | Waiting(epoch: nat, next: nat)
    | Lowered(epoch: nat)
    | Panicked

  /** Where a CPU stands in `smp_tlb_handle_nmi`. */
  datatype Nmi = Outside | Entered | Noticed | Loaded(epoch: nat) | Reloaded(epoch: nat)

  datatype State = State(main: seq<Main>, nmi: seq<Nmi>, online: seq<bool>, lock: Option<Cpu>,
                         epoch: nat, active: bool, ack: seq<nat>)

  /** What happens next, on one CPU. */
  datatype Action =
    | BringUp(cpu: Cpu)    // the CPU comes online
    | Call(cpu: Cpu)       // it takes the lock for a shootdown
    | Advance(cpu: Cpu)    // one step of its shootdown
    | Fail(cpu: Cpu)       // NMI delivery fails, or the wait times out
    | Interrupt(cpu: Cpu)  // it receives an NMI
    | Handle(cpu: Cpu)     // one step of its NMI handler

  ghost predicate SeveralOnline(s: State) {
    exists i, j | 0 <= i < j < |s.online| :: s.online[i] && s.online[j]
  }

  predicate Sized(s: State) { |s.main| == |s.nmi| == |s.online| == |s.ack| }

  /** An NMI suspends whatever the CPU was doing, and masks further NMIs. */
  ghost predicate Enabled(s: State, a: Action)
    requires Sized(s)
  {
    var c := a.cpu;
    && c < |s.main|
    && match a
       case BringUp(_) => !s.online[c]
       case Call(_) => s.nmi[c].Outside? && s.main[c].Idle? && s.lock.None? && SeveralOnline(s)
       case Advance(_) =>
         && s.nmi[c].Outside? && !s.main[c].Idle? && !s.main[c].Panicked?
         && (s.main[c].Waiting? ==> Passes(s, c, s.main[c].epoch, s.main[c].next))
       case Fail(_) =>
         && s.nmi[c].Outside?
         && (s.main[c].Raised? || (s.main[c].Waiting? && !Passes(s, c, s.main[c].epoch, s.main[c].next)))
       case Interrupt(_) => s.nmi[c].Outside?
       case Handle(_) => !s.nmi[c].Outside?
  }

  /** The wait loop moves on from CPU `i`: past the end, an offline CPU, the caller or a matching
      acknowledgement. */
  predicate Passes(s: State, c: Cpu, e: nat, i: nat)
    requires Sized(s)
  {
    i < |s.ack| && s.online[i] && i != c ==> s.ack[i] == e
  }

  function At(s: State, c: Cpu, m: Main): State
    requires c < |s.main|
  {
    s.(main := s.main[c := m])
  }

  /** One step of a shootdown. */
  function AdvanceMain(s: State, c: Cpu): State
    requires Sized(s) && c < |s.main|
  {
    match s.main[c]
    case Locked =>
      var e := (s.epoch + 1) % EPOCHS;
      At(s, c, if e == 0 then Locked else Published(e)).(epoch := e)
    case Published(e) => At(s, c, Raised(e)).(active := true)
    case Raised(e) => At(s, c, Waiting(e, 0))
    case Waiting(e, i) =>
      if i < |s.main| then At(s, c, Waiting(e, i + 1)) else At(s, c, Lowered(e)).(active := false)
    case Lowered(e) => At(s, c, Idle).(lock := None)
    case _ => s
  }

  function InHandler(s: State, c: Cpu, n: Nmi): State
    requires c < |s.nmi|
  {
    s.(nmi := s.nmi[c := n])
  }

  /** One step of the NMI handler. */
  function HandleNmi(s: State, c: Cpu): State
    requires Sized(s) && c < |s.nmi|
  {
    match s.nmi[c]
    case Entered => InHandler(s, c, if s.active then Noticed else Outside)
    case Noticed => InHandler(s, c, Loaded(s.epoch))
    case Loaded(e) => InHandler(s, c, Reloaded(e))
    case Reloaded(e) => InHandler(s, c, Outside).(ack := s.ack[c := e])
    case Outside => s
  }

  function Next(s: State, a: Action): (s': State)
    requires Sized(s) && a.cpu < |s.main|
    ensures Sized(s') && |s'.main| == |s.main|
  {
    var c := a.cpu;
    match a
    case BringUp(_) => s.(online := s.online[c := true])
    case Call(_) => At(s, c, Locked).(lock := Some(c))
    case Advance(_) => AdvanceMain(s, c)
    case Fail(_) => At(s, c, Panicked).(active := false, lock := None)
    case Interrupt(_) => InHandler(s, c, Entered)
    case Handle(_) => HandleNmi(s, c)
  }

  // ---- runs ------------------------------------------------------------------------------

  ghost predicate Possible(s: State, acts: seq<Action>)
    requires Sized(s)
    decreases |acts|
  {
    acts == [] || (Enabled(s, acts[0]) && Possible(Next(s, acts[0]), acts[1..]))
  }

  ghost function After(s: State, acts: seq<Action>): (s': State)
    requires Sized(s) && Possible(s, acts)
    ensures Sized(s') && |s'.main| == |s.main|
    decreases |acts|
  {
    if acts == [] then s else After(Next(s, acts[0]), acts[1..])
  }

  /** CPU `i` reloads CR3 somewhere in the run. */
  ghost predicate Reloads(s: State, acts: seq<Action>, i: Cpu)
    requires Sized(s) && Possible(s, acts)
    decreases |acts|
  {
    acts != [] && ((acts[0] == Handle(i) && s.nmi[i].Loaded?) || Reloads(Next(s, acts[0]), acts[1..], i))
  }

  /** The last step of the run, and none before it, returns from CPU `c`'s shootdown. */
  ghost predicate Returns(s: State, acts: seq<Action>, c: Cpu)
    requires Sized(s) && Possible(s, acts)
    decreases |acts|
  {
    acts != [] &&
    if acts[0] == Advance(c) && s.main[c].Lowered? then |acts| == 1 else Returns(Next(s, acts[0]), acts[1..], c)
  }

  predicate Initial(s: State) {
    && Sized(s) && s.lock.None? && !s.active && s.epoch == 0
    && forall c | 0 <= c < |s.main| :: s.main[c].Idle? && s.nmi[c].Outside? && s.ack[c] == 0
  }

  // ---- the lock protects the call ----------------------------------------------------------

  predicate InCall(m: Main) { !m.Idle? && !m.Panicked? }

  predicate CallOk(s: State, c: Cpu)
    requires c < |s.main|
  {
    var m := s.main[c];
    && (InCall(m) <==> s.lock == Some(c))
    && (InCall(m) && !m.Locked? ==> m.epoch == s.epoch)
    && (m.Raised? || m.Waiting? ==> s.active)
    && (m.Waiting? ==> m.next <= |s.main|)
  }

  ghost predicate Inv(s: State) {
    && Sized(s)
    && forall c | 0 <= c < |s.main| :: CallOk(s, c)
  }

  lemma StepKeepsInv(s: State, a: Action)
    requires Inv(s) && Enabled(s, a)
    ensures Inv(Next(s, a))
  {
    var s' := Next(s, a);
    forall c | 0 <= c < |s'.main| ensures CallOk(s', c) {
      assert CallOk(s, c) && CallOk(s, a.cpu);
    }
  }

  lemma {:induction false} RunKeepsInv(s: State, acts: seq<Action>)
    requires Inv(s) && Possible(s, acts)
    ensures Inv(After(s, acts))
    decreases |acts|
  {
    if acts != [] {
      StepKeepsInv(s, acts[0]);
      RunKeepsInv(Next(s, acts[0]), acts[1..]);
    }
  }

  // ---- a return means reloads -----------------------------------------------------------------

  /** No other online CPU has, or is about to store, an acknowledgement that looks like `c`'s. */
  ghost predicate Fresh(s: State, c: Cpu)
    requires Sized(s) && c < |s.main| && s.main[c].Published?
  {
    forall i | 0 <= i < |s.main| && i != c && s.online[i] :: !Acked(s, i, s.main[c].epoch)
  }

  predicate Acked(s: State, i: Cpu, e: nat)
    requires Sized(s) && i < |s.main|
  {
    s.ack[i] == e || s.nmi[i] == Reloaded(e)
  }

  /** `c`'s call still has to see CPU `i` reload. */
  predicate Owes(s: State, c: Cpu, i: Cpu)
    requires Sized(s) && c < |s.main| && i < |s.main|
  {
    var m := s.main[c];
    && c != i && s.online[i]
    && (m.Panicked? || ((m.Published? || m.Raised? || (m.Waiting? && m.next <= i)) && !Acked(s, i, m.epoch)))
  }

  lemma OwesStep(s: State, a: Action, c: Cpu, i: Cpu)
    requires Inv(s) && Enabled(s, a) && c < |s.main| && i < |s.main| && Owes(s, c, i)
    requires !(a == Handle(i) && s.nmi[i].Loaded?)
    ensures Owes(Next(s, a), c, i)
  {
    assert CallOk(s, c) && CallOk(s, a.cpu) && CallOk(s, i);
  }

  lemma {:induction false} OwedIsPaid(s: State, acts: seq<Action>, c: Cpu, i: Cpu)
    requires Inv(s) && Possible(s, acts) && c < |s.main| && i < |s.main| && Owes(s, c, i)
    requires Returns(s, acts, c)
    ensures Reloads(s, acts, i)
    decreases |acts|
  {
    if !(acts[0] == Handle(i) && s.nmi[i].Loaded?) {
      StepKeepsInv(s, acts[0]);
      OwesStep(s, acts[0], c, i);
      OwedIsPaid(Next(s, acts[0]), acts[1..], c, i);
    }
  }

  // ---- epochs that have not wrapped are fresh -----------------------------------------------------

  predicate Behind(s: State, i: Cpu)
    requires Sized(s) && i < |s.main|
  {
    && s.ack[i] <= s.epoch
    && (s.nmi[i].Loaded? || s.nmi[i].Reloaded? ==> s.nmi[i].epoch <= s.epoch)
  }

  ghost predicate AllBehind(s: State)
    requires Sized(s)
  {
    forall i | 0 <= i < |s.main| :: Behind(s, i)
  }

  /** The step takes a new epoch. */
  predicate Bumps(s: State, a: Action) { a.Advance? && a.cpu < |s.main| && s.main[a.cpu].Locked? }

  ghost function BumpCount(s: State, acts: seq<Action>): nat
    requires Sized(s) && Possible(s, acts)
    decreases |acts|
  {
    if acts == [] then 0 else (if Bumps(s, acts[0]) then 1 else 0) + BumpCount(Next(s, acts[0]), acts[1..])
  }

  lemma StepBehind(s: State, a: Action)
    requires Inv(s) && Enabled(s, a) && AllBehind(s)
    requires Bumps(s, a) ==> s.epoch + 1 < EPOCHS
    ensures AllBehind(Next(s, a)) && Next(s, a).epoch == s.epoch + (if Bumps(s, a) then 1 else 0)
  {
    var s' := Next(s, a);
    forall i | 0 <= i < |s'.main| ensures Behind(s', i) { assert Behind(s, i); }
  }

  lemma {:induction false} RunBehind(s: State, acts: seq<Action>)
    requires Inv(s) && Possible(s, acts) && AllBehind(s) && s.epoch + BumpCount(s, acts) < EPOCHS
    ensures AllBehind(After(s, acts)) && After(s, acts).epoch == s.epoch + BumpCount(s, acts)
    decreases |acts|
  {
    if acts != [] {
      StepKeepsInv(s, acts[0]);
      StepBehind(s, acts[0]);
      RunBehind(Next(s, acts[0]), acts[1..]);
    }
  }

  lemma InitialIsFine(s: State)
    requires Initial(s)
    ensures Inv(s) && AllBehind(s)
  {
  }

  /** Safety of every run: after any `before`, when CPU `c` publishes an epoch and, after any `after`,
      returns, every other CPU that was online at the publication has reloaded CR3 in between, as
      long as the run took fewer than 2^32 epochs up to the publication. */
  lemma EveryReturnIsPaid(s0: State, before: seq<Action>, c: Cpu, after: seq<Action>, i: Cpu)
    requires Initial(s0) && Possible(s0, before) && BumpCount(s0, before) + 1 < EPOCHS
    requires var s := After(s0, before);
             && c < |s.main| && s.main[c].Locked? && Enabled(s, Advance(c))
             && Possible(Next(s, Advance(c)), after) && Returns(Next(s, Advance(c)), after, c)
             && i < |s.main| && i != c && s.online[i]
    ensures Reloads(Next(After(s0, before), Advance(c)), after, i)
  {
    var s := After(s0, before);
    InitialIsFine(s0);
    RunKeepsInv(s0, before);
    RunBehind(s0, before);
    StepKeepsInv(s, Advance(c));
    assert Behind(s, i);
    OwedIsPaid(Next(s, Advance(c)), after, c, i);
  }

  // ---- freshness is exactly what is needed -----------------------------------------------------------

  /** The steps `c` has left before it returns. */
  function Stage(s: State, c: Cpu): nat
    requires c < |s.main|
  {
    match s.main[c]
    case Published(_) => |s.main| + 4
    case Raised(_) => |s.main| + 3
    case Waiting(_, n) => if n <= |s.main| then |s.main| - n + 2 else 2
    case _ => 1
  }

  /** The handler steps a CPU has left before it acknowledges `e`. */
  function Distance(n: Nmi, e: nat): nat {
    match n
    case Reloaded(x) => if x == e then 1 else 6
    case Loaded(x) => if x == e then 2 else 7
    case Noticed => 3
    case Entered => 4
    case Outside => 5
  }

  predicate PastLock(m: Main) { InCall(m) && !m.Locked? }

  /** A step that brings `c` nearer to its return without CPU `i`. */
  function Towards(s: State, c: Cpu): Action
    requires Sized(s) && c < |s.main|
  {
    if !s.main[c].Waiting? || Passes(s, c, s.main[c].epoch, s.main[c].next) then Advance(c)
    else if s.nmi[s.main[c].next].Outside? then Interrupt(s.main[c].next)
    else Handle(s.main[c].next)
  }

  ghost predicate CanDoWithout(s: State, c: Cpu, i: Cpu) {
    && Inv(s) && c < |s.main| && i < |s.main| && i != c
    && PastLock(s.main[c]) && s.nmi[c].Outside? && s.ack[i] == s.main[c].epoch
  }

  ghost function Remaining(s: State, c: Cpu): nat
    requires Sized(s) && c < |s.main|
  {
    8 * Stage(s, c)
    + if !s.main[c].Waiting? || Passes(s, c, s.main[c].epoch, s.main[c].next) then 0
      else Distance(s.nmi[s.main[c].next], s.main[c].epoch)
  }

  lemma TowardsReturn(s: State, c: Cpu, i: Cpu)
    requires CanDoWithout(s, c, i) && !s.main[c].Lowered?
    ensures var a := Towards(s, c);
            && a != Handle(i) && Enabled(s, a)
            && CanDoWithout(Next(s, a), c, i) && Remaining(Next(s, a), c) < Remaining(s, c)
  {
    assert CallOk(s, c);
    StepKeepsInv(s, Towards(s, c));
  }

  /** With a stale acknowledgement from `i` in place, `c` can return without `i` taking a step. */
  lemma {:induction false} ReturnWithout(s: State, c: Cpu, i: Cpu) returns (acts: seq<Action>)
    requires CanDoWithout(s, c, i)
    ensures Possible(s, acts) && Returns(s, acts, c) && !Reloads(s, acts, i)
    decreases Remaining(s, c)
  {
    if s.main[c].Lowered? {
      acts := [Advance(c)];
    } else {
      TowardsReturn(s, c, i);
      var rest := ReturnWithout(Next(s, Towards(s, c)), c, i);
      acts := [Towards(s, c)] + rest;
      assert acts[1..] == rest;
    }
  }

  ghost predicate Promised(s: State, c: Cpu)
    requires Sized(s) && c < |s.main|
  {
    forall acts, i | Possible(s, acts) && Returns(s, acts, c) && 0 <= i < |s.main| && i != c && s.online[i] ::
      Reloads(s, acts, i)
  }

  /** Just after a publication, every way to return is preceded by the reloads if and only if no
      other online CPU has, or is about to store, the same epoch as its acknowledgement. */
  lemma FreshIsExact(s: State, c: Cpu)
    requires Inv(s) && c < |s.main| && s.main[c].Published? && s.nmi[c].Outside?
    ensures Fresh(s, c) <==> Promised(s, c)
  {
    if Fresh(s, c) {
      forall acts, i | Possible(s, acts) && Returns(s, acts, c) && 0 <= i < |s.main| && i != c && s.online[i]
        ensures Reloads(s, acts, i)
      {
        OwedIsPaid(s, acts, c, i);
      }
    } else {
      var i :| 0 <= i < |s.main| && i != c && s.online[i] && Acked(s, i, s.main[c].epoch);
      var acts := StaleReturn(s, c, i);
    }
  }

  lemma StaleReturn(s: State, c: Cpu, i: Cpu) returns (acts: seq<Action>)
    requires Inv(s) && c < |s.main| && s.main[c].Published? && s.nmi[c].Outside?
    requires i < |s.main| && i != c && Acked(s, i, s.main[c].epoch)
    ensures Possible(s, acts) && Returns(s, acts, c) && !Reloads(s, acts, i)
  {
    if s.ack[i] == s.main[c].epoch {
      acts := ReturnWithout(s, c, i);
    } else {
      StepKeepsInv(s, Handle(i));
      var rest := ReturnWithout(Next(s, Handle(i)), c, i);
      acts := [Handle(i)] + rest;
      assert acts[1..] == rest;
    }
  }

  // ---- and wrapping can break it -------------------------------------------------------------------

  ghost predicate Reach(s: State, s': State)
    requires Sized(s)
  {
    exists acts :: Possible(s, acts) && After(s, acts) == s'
  }

  lemma {:induction false} RunsExtend(s: State, acts: seq<Action>, a: Action)
    requires Sized(s) && Possible(s, acts) && Enabled(After(s, acts), a)
    ensures Possible(s, acts + [a]) && After(s, acts + [a]) == Next(After(s, acts), a)
    decreases |acts|
  {
    var b := acts + [a];
    if acts == [] {
      assert b[1..] == [];
    } else {
      assert b[0] == acts[0] && b[1..] == acts[1..] + [a];
      RunsExtend(Next(s, acts[0]), acts[1..], a);
    }
  }

  lemma Extend(s: State, u: State, a: Action)
    requires Sized(s) && Reach(s, u) && Sized(u) && Enabled(u, a)
    ensures Reach(s, Next(u, a))
  {
    var acts :| Possible(s, acts) && After(s, acts) == u;
    RunsExtend(s, acts, a);
  }

  /** CPU `d` takes an NMI during an active shootdown and acknowledges it. */
  lemma Answers(s: State, u: State, d: Cpu)
    requires Sized(s) && Reach(s, u) && Sized(u) && d < |u.main| && u.nmi[d].Outside? && u.active
    ensures Reach(s, u.(ack := u.ack[d := u.epoch]))
  {
    hide Reach;
    var u1 := Next(u, Interrupt(d));
    Extend(s, u, Interrupt(d));
    var u2 := Next(u1, Handle(d));
    Extend(s, u1, Handle(d));
    var u3 := Next(u2, Handle(d));
    Extend(s, u2, Handle(d));
    var u4 := Next(u3, Handle(d));
    Extend(s, u3, Handle(d));
    Extend(s, u4, Handle(d));
    assert Next(u4, Handle(d)).nmi == u.nmi;
  }

  /** Two CPUs between shootdowns. */
  function Pair(e: nat, ack: seq<nat>): State {
    State([Idle, Idle], [Outside, Outside], [true, true], None, e, false, ack)
  }

  /** The same with CPU `c` at `m` in a call. */
  function Calling(c: Cpu, m: Main, e: nat, active: bool, ack: seq<nat>): State
    requires c < 2
  {
    Pair(e, ack).(main := [Idle, Idle][c := m], lock := Some(c), active := active)
  }

  /** A step of the caller from `m` to `m'`. */
  lemma CallerMoves(s: State, c: Cpu, m: Main, e: nat, active: bool, ack: seq<nat>, m': Main, e': nat, active': bool)
    requires c < 2 && |ack| == 2 && Sized(s) && Reach(s, Calling(c, m, e, active, ack)) && InCall(m) && InCall(m')
    requires var u := Calling(c, m, e, active, ack);
             && Enabled(u, Advance(c))
             && var u' := Next(u, Advance(c)); u'.main[c] == m' && u'.epoch == e' && u'.active == active'
    ensures Reach(s, Calling(c, m', e', active', ack))
  {
    hide Reach;
    Extend(s, Calling(c, m, e, active, ack), Advance(c));
    assert [Idle, Idle][c := m][c := m'] == [Idle, Idle][c := m'];
  }

  lemma PairCalls(s: State, c: Cpu, e: nat, ack: seq<nat>)
    requires Sized(s) && Reach(s, Pair(e, ack)) && |ack| == 2 && c < 2
    ensures Reach(s, Calling(c, Locked, e, false, ack))
  {
    assert Pair(e, ack).online[0] && Pair(e, ack).online[1];
    Extend(s, Pair(e, ack), Call(c));
  }

  lemma PairWaits(s: State, c: Cpu, e: nat, ack: seq<nat>)
    requires c < 2 && |ack| == 2 && ack[1 - c] == e
    requires Sized(s) && Reach(s, Calling(c, Waiting(e, 0), e, true, ack))
    ensures Reach(s, Pair(e, ack))
  {
    hide Reach;
    CallerMoves(s, c, Waiting(e, 0), e, true, ack, Waiting(e, 1), e, true);
    CallerMoves(s, c, Waiting(e, 1), e, true, ack, Waiting(e, 2), e, true);
    CallerMoves(s, c, Waiting(e, 2), e, true, ack, Lowered(e), e, false);
    Extend(s, Calling(c, Lowered(e), e, false, ack), Advance(c));
    assert [Idle, Idle][c := Lowered(e)][c := Idle] == [Idle, Idle];
  }

  /** A whole shootdown by CPU `c` of two, answered by the other. */
  lemma PairShoots(s: State, c: Cpu, e: nat, ack: seq<nat>)
    requires Sized(s) && Reach(s, Pair(e, ack)) && |ack| == 2 && c < 2 && e + 1 < EPOCHS
    ensures Reach(s, Pair(e + 1, ack[1 - c := e + 1]))
  {
    hide Reach;
    PairCalls(s, c, e, ack);
    CallerMoves(s, c, Locked, e, false, ack, Published(e + 1), e + 1, false);
    CallerMoves(s, c, Published(e + 1), e + 1, false, ack, Raised(e + 1), e + 1, true);
    Answers(s, Calling(c, Raised(e + 1), e + 1, true, ack), 1 - c);
    var acked := ack[1 - c := e + 1];
    CallerMoves(s, c, Raised(e + 1), e + 1, true, acked, Waiting(e + 1, 0), e + 1, true);
    PairWaits(s, c, e + 1, acked);
  }

  /** CPU 1 runs shootdowns in a row; its own acknowledgement never changes. */
  lemma {:induction false} PairShootsOn(s: State, e: nat, a0: nat, a1: nat, n: nat)
    requires Sized(s) && Reach(s, Pair(e, [a0, a1])) && e + n < EPOCHS
    ensures exists a :: Reach(s, Pair(e + n, [a, a1]))
    decreases n
  {
    if n > 0 {
      PairShoots(s, 1, e, [a0, a1]);
      assert [a0, a1][0 := e + 1] == [e + 1, a1];
      PairShootsOn(s, e + 1, e + 1, a1, n - 1);
    }
  }

  /** The counter can wrap onto a stale acknowledgement: after CPU 0 has run one shootdown and CPU 1
      the next 2^32 - 2, CPU 0 publishes epoch 1 again while CPU 1's acknowledgement still reads 1. */
  lemma WrappedEpochIsNotFresh()
    ensures exists s :: Reach(Pair(0, [0, 0]), s) && Inv(s) && s.main[0].Published? && s.nmi[0].Outside? && !Fresh(s, 0)
  {
    hide Reach;
    var s0 := Pair(0, [0, 0]);
    ReachSelf(s0);
    PairShoots(s0, 0, 0, [0, 0]);
    assert [0, 0][1 := 1] == [0, 1];
    PairShootsOn(s0, 1, 0, 1, EPOCHS - 2);
    var a :| Reach(s0, Pair(EPOCHS - 1, [a, 1]));
    WrapAround(s0, a);
    StaleOne(a);
  }

  lemma ReachSelf(s: State)
    requires Sized(s)
    ensures Reach(s, s)
  {
    assert Possible(s, []) && After(s, []) == s;
  }

  lemma StaleOne(a: nat)
    ensures var s := Calling(0, Published(1), 1, false, [a, 1]);
            Inv(s) && s.main[0].Published? && s.nmi[0].Outside? && !Fresh(s, 0)
  {
    var s := Calling(0, Published(1), 1, false, [a, 1]);
    assert s.online[1] && Acked(s, 1, 1);
  }

  lemma WrapAround(s: State, a: nat)
    requires Sized(s) && Reach(s, Pair(EPOCHS - 1, [a, 1]))
    ensures Reach(s, Calling(0, Published(1), 1, false, [a, 1]))
  {
    hide Reach;
    PairCalls(s, 0, EPOCHS - 1, [a, 1]);
    CallerMoves(s, 0, Locked, EPOCHS - 1, false, [a, 1], Locked, 0, false);
    CallerMoves(s, 0, Locked, 0, false, [a, 1], Published(1), 1, false);
  }
}
