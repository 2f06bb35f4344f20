/** Runs of a process that takes signals: handlers delivered on top of one another on the main user
    stack, user code in between, and returns in the opposite order. */
module SignalRuns {
  import opened Prelude
  import opened Words
  import opened SignalFrame

  /** A frame whose handler has not returned yet, with what it was built from. */
  datatype Live = Live(base: Word, fp: Word, regs: Regs, retmask: bv64, fpu: seq<Word>, restorer: Word, sig: Word)

  predicate LiveOk(l: Live) {
    && STACK_LOW <= l.base && l.base % 16 == 8
    && l.base + FRAME_SIZE <= l.fp && l.fp % 64 == 0
    && l.fp + FPSTATE_SIZE <= STACK_TOP && l.fp + FPSTATE_SIZE <= l.regs.rsp - RED_ZONE
    && l.regs.rsp < USER_LIMIT && l.regs.rip < USER_LIMIT
    && MaskOk(l.retmask)
    && |l.fpu| == 64 && FilterFpu(l.fpu) == l.fpu
  }

  function WordsOf(l: Live): seq<Word> { FrameWords(l.regs, l.retmask, l.fp, l.restorer, l.sig) }

  /** The frame is in memory as it was written. */
  predicate Intact(m: Memory, l: Live)
    requires |m| == STACK_SIZE && LiveOk(l)
  {
    && Load(m, l.base - STACK_LOW, FRAME_SIZE) == Encode(WordsOf(l))
    && Load(m, l.fp - STACK_LOW, FPSTATE_SIZE) == Encode(l.fpu)
  }

  /** The frame that delivering `sig` builds. */
  function NewLive(p: Proc, sig: nat): Live
    requires Sized(p) && 1 <= sig < NSIG && p.syscall < WORD_LIMIT
  {
    Live(BaseAt(p.regs.rsp), FpAt(p.regs.rsp), Restarted(p, sig), ReturnMask(p), p.fpu, p.actions[sig].restorer, sig)
  }

  // ---- one delivery, one return ---------------------------------------------------------

  predicate CanDeliver(p: Proc, sig: nat) {
    && Sized(p) && 1 <= sig < NSIG && sig != SIGKILL && sig != SIGSTOP && p.syscall < WORD_LIMIT
    && Fits(p.regs.rsp) && Restarted(p, sig).rip < USER_LIMIT
  }

  lemma RestartKeepsStack(p: Proc, sig: nat)
    requires Sized(p) && sig < NSIG && p.syscall < WORD_LIMIT
    ensures Restarted(p, sig).rsp == p.regs.rsp && Restarted(p, sig).rflags == p.regs.rflags
  {
  }

  /** Delivery writes the frame, and nothing at or above the red zone. */
  lemma DeliveryPushes(p: Proc, sig: nat)
    requires CanDeliver(p, sig) && MaskOk(ReturnMask(p)) && FilterFpu(p.fpu) == p.fpu
    ensures LiveOk(NewLive(p, sig)) && Intact(Delivered(p, sig).stack, NewLive(p, sig))
  {
    hide FrameWords, Encode, Restarts, FilterFpu, MaskOk, Load, Store, BaseAt, FpAt, Fits;
    Layout(p.regs.rsp);
    RestartKeepsStack(p, sig);
    var l := NewLive(p, sig);
    var i, j := l.base - STACK_LOW, l.fp - STACK_LOW;
    var m := Store(p.stack, i, Encode(WordsOf(l)));
    LoadStored(p.stack, i, Encode(WordsOf(l)));
    LoadStored(m, j, Encode(p.fpu));
    LoadElsewhere(m, j, Encode(p.fpu), i, FRAME_SIZE);
  }

  /** A handler starts like a called function: at its entry point, with its return address on top of
      the stack, the signal as first argument, and the other two pointing at the siginfo and the
      context inside its frame. */
  lemma HandlerStarts(p: Proc, sig: nat)
    requires CanDeliver(p, sig) && MaskOk(ReturnMask(p)) && FilterFpu(p.fpu) == p.fpu
    ensures var q, base := Delivered(p, sig), BaseAt(p.regs.rsp);
            && q.regs.rsp == base && base % 16 == 8 && OnUserStack(base, FRAME_SIZE)
            && q.regs.rip == p.actions[sig].handler && q.regs.rdi == sig
            && q.regs.rsi == base + 8 * 39 && q.regs.rdx == base + 8 && q.regs.rax == 0
            && q.regs.rflags == p.regs.rflags & !0x500 && !q.restoreMask
            && q.actions == (if p.actions[sig].flags & SA_RESETHAND != 0 then p.actions[sig := NoDisposition()]
                             else p.actions)
            && var ws := Decode(Load(q.stack, base - STACK_LOW, FRAME_SIZE));
               ws[0] == p.actions[sig].restorer && ws[39] == sig && ToBits(ws[38]) == ReturnMask(p)
  {
    hide FrameWords, Encode, Decode, Restarted, FilterFpu, MaskOk, Load, Stacked, BaseAt, FpAt, ToBits, HandlerMask;
    var l := NewLive(p, sig);
    RestartKeepsStack(p, sig);
    DeliveryPushes(p, sig);
    DecodeEncode(WordsOf(l));
    FrameParts(l.regs, l.retmask, l.fp, l.restorer, l.sig);
  }

  /** The sixteen general registers, in the order of the machine context, as `r` has them. */
  function General(r: Regs, k: nat): Word
    requires k < 17
  {
    if k == 0 then r.r8 else if k == 1 then r.r9 else if k == 2 then r.r10 else if k == 3 then r.r11
    else if k == 4 then r.r12 else if k == 5 then r.r13 else if k == 6 then r.r14 else if k == 7 then r.r15
    else if k == 8 then r.rdi else if k == 9 then r.rsi else if k == 10 then r.rbp else if k == 11 then r.rbx
    else if k == 12 then r.rdx else if k == 13 then r.rax else if k == 14 then r.rcx else if k == 15 then r.rsp
    else r.rip
  }

  /** The handler finds the interrupted registers in the machine context, 40 bytes into its third argument,
      one word each. */
  lemma HandlerSees(p: Proc, sig: nat, k: nat)
    requires CanDeliver(p, sig) && MaskOk(ReturnMask(p)) && FilterFpu(p.fpu) == p.fpu && k < 17
    ensures var q := Delivered(p, sig);
            Decode(Load(q.stack, BaseAt(p.regs.rsp) - STACK_LOW, FRAME_SIZE))[1 + 5 + k]
            == General(Restarted(p, sig), k)
  {
    hide FrameWords, Encode, Decode, Restarted, FilterFpu, MaskOk, Load, Stacked, BaseAt, FpAt, ToBits, HandlerMask;
    var l := NewLive(p, sig);
    DeliveryPushes(p, sig);
    DecodeEncode(WordsOf(l));
    FrameParts(l.regs, l.retmask, l.fp, l.restorer, l.sig);
    var ws := WordsOf(l);
    if k < 8 { assert ws[6 + k] == ws[6..14][k]; }
    else if k < 16 { assert ws[6 + k] == ws[14..22][k - 8]; }
    else { assert ws[22] == ws[22..30][0]; }
  }

  /** Memory outside the frame and its floating-point state is untouched. */
  lemma DeliverySpares(p: Proc, sig: nat, j: nat, n: nat)
    requires CanDeliver(p, sig) && j + n <= STACK_SIZE
    requires j + n <= BaseAt(p.regs.rsp) - STACK_LOW || p.regs.rsp - RED_ZONE - STACK_LOW <= j
    ensures Load(Delivered(p, sig).stack, j, n) == Load(p.stack, j, n)
  {
    hide FrameWords, Encode, Restarts, Load, Store, BaseAt, FpAt, Fits;
    Layout(p.regs.rsp);
    var ws := FrameWords(Restarted(p, sig), ReturnMask(p), FpAt(p.regs.rsp), p.actions[sig].restorer, sig);
    var m := Store(p.stack, BaseAt(p.regs.rsp) - STACK_LOW, Encode(ws));
    LoadElsewhere(p.stack, BaseAt(p.regs.rsp) - STACK_LOW, Encode(ws), j, n);
    LoadElsewhere(m, FpAt(p.regs.rsp) - STACK_LOW, Encode(p.fpu), j, n);
  }

  /** Returning through an intact frame resumes what it saved. */
  lemma ReturnResumes(p: Proc, l: Live)
    requires Sized(p) && LiveOk(l) && Intact(p.stack, l) && p.regs.rsp == l.base + 8
    ensures Returned(p).Some?
    ensures var q := Returned(p).value;
            && Continues(q.regs, l.regs) && q.mask == l.retmask && q.fpu == l.fpu && q.syscall == -1
            && q == p.(regs := q.regs, mask := q.mask, fpu := q.fpu, syscall := -1)
  {
    hide FrameWords, Encode, Continues, Resumed, Load, Store, FilterFpu, MaskOk, Catchable, ToBits;
    hide ReturnWords, SavedFpu, LiveOk, Intact;
    ReturnReads(p, l);
    FrameContinues(l.regs, l.retmask, l.fp, l.restorer, l.sig, p.regs);
    CatchableOk(l.retmask);
    StoreSame(p.stack, l.fp - STACK_LOW, Encode(l.fpu));
  }

  /** What a return finds in an intact frame. */
  lemma ReturnReads(p: Proc, l: Live)
    requires Sized(p) && LiveOk(l) && Intact(p.stack, l) && p.regs.rsp == l.base + 8
    ensures OnUserStack(Minus(p.regs.rsp, 8), FRAME_SIZE) && ReturnWords(p) == WordsOf(l)
    ensures LoadsFpu(l.fp) && SavedFpu(p.stack, l.fp) == l.fpu && FilterFpu(l.fpu) == l.fpu
    ensures Load(p.stack, l.fp - STACK_LOW, FPSTATE_SIZE) == Encode(l.fpu)
    ensures MaskOk(l.retmask) && l.regs.rsp < USER_LIMIT && l.regs.rip < USER_LIMIT
  {
    hide FrameWords, Encode, Decode, Load, FilterFpu, MaskOk;
    DecodeEncode(WordsOf(l));
    DecodeEncode(l.fpu);
  }

  // ---- the machine ---------------------------------------------------------------------------

  datatype How = Block | Unblock | SetTo

  datatype Event =
    | Deliver(sig: nat)
    | Return
    | Run(regs: Regs, stack: Memory, fpu: seq<Word>, syscall: int)
    | Procmask(how: How, set_: bv64)
    | Suspend(mask: bv64)
    | Sigaction(number: nat, action: Disposition)

  datatype State = State(p: Proc, live: seq<Live>)

  function Masked(mask: bv64, how: How, s: bv64): bv64 {
    Catchable(match how case Block => mask | s case Unblock => mask & !s case SetTo => s)
  }

  /** Of the signals that can be blocked, `b` being any set of them, exactly those are blocked afterwards that
      were or are in the set, that were and are not in it, or that are in it. */
  lemma MaskedBlocks(mask: bv64, s: bv64, b: bv64)
    requires MaskOk(b)
    ensures Masked(mask, Block, s) & b == (mask & b) | (s & b)
    ensures Masked(mask, Unblock, s) & b == mask & b & !s
    ensures Masked(mask, SetTo, s) & b == s & b
  {
    MaskedBlock(mask, s, b);
    MaskedUnblock(mask, s, b);
    FilterMoves(s, b);
  }

  lemma MaskedBlock(mask: bv64, s: bv64, b: bv64)
    requires MaskOk(b)
    ensures Masked(mask, Block, s) & b == (mask & b) | (s & b)
  {
    hide Catchable, MaskOk;
    FilterMoves(mask | s, b);
    OrMoves(mask, s, b);
  }

  lemma MaskedUnblock(mask: bv64, s: bv64, b: bv64)
    requires MaskOk(b)
    ensures Masked(mask, Unblock, s) & b == mask & b & !s
  {
    hide Catchable, MaskOk;
    FilterMoves(mask & !s, b);
    AndMoves(mask, s, b);
  }

  lemma FilterMoves(x: bv64, b: bv64)
    requires MaskOk(b)
    ensures Catchable(x) & b == x & b
  {
    CatchableOk(b);
    MaskMoves(x, b);
  }

  lemma OrMoves(m: bv64, s: bv64, b: bv64)
    ensures (m | s) & b == (m & b) | (s & b)
  {
  }

  lemma AndMoves(m: bv64, s: bv64, b: bv64)
    ensures (m & !s) & b == m & b & !s
  {
  }

  predicate Apart(l: Live, above: Live) { l.fp + FPSTATE_SIZE <= above.base }

  ghost predicate FramesOk(m: Memory, live: seq<Live>) {
    && |m| == STACK_SIZE
    && (forall k | 0 <= k < |live| :: LiveOk(live[k]) && Intact(m, live[k]))
    && (forall j, k | 0 <= j < k < |live| :: Apart(live[k], live[j]))
  }

  ghost predicate MasksOk(p: Proc) {
    && MaskOk(p.mask) && MaskOk(p.savedMask)
    && forall s | 0 <= s < |p.actions| :: MaskOk(p.actions[s].mask)
  }

  ghost predicate Inv(s: State) {
    && Sized(s.p) && s.p.syscall < WORD_LIMIT && FilterFpu(s.p.fpu) == s.p.fpu
    && MasksOk(s.p) && FramesOk(s.p.stack, s.live)
  }

  /** A handler keeps to its part of the stack: when it is interrupted its stack pointer is at most a
      red zone above its frame, it leaves the frames of live handlers alone, and it returns with the
      pointer just above its return address. */
  ghost predicate Enabled(s: State, e: Event)
    requires Sized(s.p)
  {
    match e
    case Deliver(sig) =>
      CanDeliver(s.p, sig) && (s.live != [] ==> s.p.regs.rsp <= s.live[|s.live| - 1].base + RED_ZONE)
    case Return => s.live != [] && s.p.regs.rsp == s.live[|s.live| - 1].base + 8 && Returned(s.p).Some?
    case Run(regs, stack, fpu, syscall) =>
      && |stack| == STACK_SIZE && |fpu| == 64 && FilterFpu(fpu) == fpu && syscall < WORD_LIMIT
      && forall k | 0 <= k < |s.live| :: LiveOk(s.live[k]) && Intact(stack, s.live[k])
    case Procmask(_, _) => true
    case Suspend(_) => true
    case Sigaction(sig, _) => 1 <= sig < NSIG && sig != SIGKILL && sig != SIGSTOP
  }

  /** What an event does to the process. */
  function Stepped(p: Proc, e: Event): (p': Proc)
    requires Sized(p)
    requires e.Deliver? ==> CanDeliver(p, e.sig)
    requires e.Return? ==> Returned(p).Some?
    requires e.Run? ==> |e.stack| == STACK_SIZE && |e.fpu| == 64
    requires e.Sigaction? ==> e.number < NSIG
    ensures Sized(p')
  {
    match e
    case Deliver(sig) => Delivered(p, sig)
    case Return => Returned(p).value
    case Run(regs, stack, fpu, syscall) => p.(regs := regs, stack := stack, fpu := fpu, syscall := syscall)
    case Procmask(how, set_) => p.(mask := Masked(p.mask, how, set_))
    case Suspend(mask) => p.(savedMask := p.mask, restoreMask := true, mask := Catchable(mask))
    case Sigaction(sig, act) => p.(actions := p.actions[sig := act.(mask := Catchable(act.mask))])
  }

  function Next(s: State, e: Event): (s': State)
    requires Sized(s.p)
    requires e.Deliver? ==> CanDeliver(s.p, e.sig)
    requires e.Return? ==> s.live != [] && Returned(s.p).Some?
    requires e.Run? ==> |e.stack| == STACK_SIZE && |e.fpu| == 64
    requires e.Sigaction? ==> e.number < NSIG
    ensures Sized(s'.p)
  {
    State(Stepped(s.p, e),
          match e
          case Deliver(sig) => s.live + [NewLive(s.p, sig)]
          case Return => s.live[..|s.live| - 1]
          case _ => s.live)
  }

  // ---- every step keeps the frames and the masks --------------------------------------------------

  lemma DeliveryKeepsFrames(s: State, sig: nat)
    requires Inv(s) && Enabled(s, Deliver(sig))
    ensures FramesOk(Delivered(s.p, sig).stack, s.live + [NewLive(s.p, sig)])
  {
    hide FrameWords, Encode, FilterFpu, MaskOk, Load, Delivered, BaseAt, FpAt, Fits, Restarts;
    var p, l := s.p, NewLive(s.p, sig);
    var m := Delivered(p, sig).stack;
    DeliveryPushes(p, sig);
    RestartKeepsStack(p, sig);
    forall k | 0 <= k < |s.live| ensures Intact(m, s.live[k]) && Apart(l, s.live[k]) {
      var f, top := s.live[k], s.live[|s.live| - 1];
      assert k < |s.live| - 1 ==> Apart(top, f);
      DeliverySpares(p, sig, f.base - STACK_LOW, FRAME_SIZE);
      DeliverySpares(p, sig, f.fp - STACK_LOW, FPSTATE_SIZE);
    }
  }

  lemma HandlerMaskOk(mask: bv64, act: Disposition, sig: nat)
    requires 1 <= sig < NSIG
    ensures MaskOk(HandlerMask(mask, act, sig))
  {
    hide MaskOk, Catchable, SigMask;
    CatchableOk(mask | act.mask | (if act.flags & SA_NODEFER == 0 then SigMask(sig) else 0));
  }

  lemma DeliveryKeepsMasks(p: Proc, sig: nat)
    requires CanDeliver(p, sig) && MasksOk(p)
    ensures MasksOk(Delivered(p, sig))
  {
    hide MaskOk, Stacked, NewFrame, HandlerRegs, HandlerMask, NoDisposition;
    HandlerMaskOk(p.mask, p.actions[sig], sig);
    NoDispositionOk();
  }

  lemma NoDispositionOk()
    ensures MaskOk(NoDisposition().mask)
  {
  }

  lemma DeliveryKeepsInv(s: State, sig: nat)
    requires Inv(s) && Enabled(s, Deliver(sig))
    ensures Inv(Next(s, Deliver(sig)))
  {
    hide FramesOk, MasksOk, Stacked, NewFrame, HandlerRegs, HandlerMask, FilterFpu, NewLive;
    DeliveryKeepsFrames(s, sig);
    DeliveryKeepsMasks(s.p, sig);
  }

  lemma ReturnKeepsInv(s: State)
    requires Inv(s) && Enabled(s, Return)
    ensures Inv(Next(s, Return))
  {
    hide FrameWords, Encode, FilterFpu, MaskOk, Load, Returned, Continues;
    ReturnResumes(s.p, s.live[|s.live| - 1]);
  }

  lemma StepKeepsInv(s: State, e: Event)
    requires Inv(s) && Enabled(s, e)
    ensures Inv(Next(s, e))
  {
    match e
    case Deliver(sig) => DeliveryKeepsInv(s, sig);
    case Return => ReturnKeepsInv(s);
    case Run(_, _, _, _) =>
    case _ => MaskCallKeepsInv(s, e);
  }

  lemma MaskedOk(mask: bv64, how: How, s: bv64)
    ensures MaskOk(Masked(mask, how, s))
  {
    hide MaskOk, Catchable;
    CatchableOk(mask | s);
    CatchableOk(mask & !s);
    CatchableOk(s);
  }

  lemma MaskCallKeepsInv(s: State, e: Event)
    requires Inv(s) && Enabled(s, e) && (e.Procmask? || e.Suspend? || e.Sigaction?)
    ensures Inv(Next(s, e))
  {
    hide MaskOk, Catchable, Masked, FilterFpu, FramesOk;
    match e
    case Procmask(how, set_) => MaskedOk(s.p.mask, how, set_);
    case Suspend(mask) => CatchableOk(mask);
    case Sigaction(_, act) => CatchableOk(act.mask);
  }

  // ---- runs -------------------------------------------------------------------------------------

  ghost predicate Possible(s: State, es: seq<Event>)
    requires Sized(s.p)
    decreases |es|
  {
    es == [] || (Enabled(s, es[0]) && Possible(Next(s, es[0]), es[1..]))
  }

  ghost function After(s: State, es: seq<Event>): (s': State)
    requires Sized(s.p) && Possible(s, es)
    ensures Sized(s'.p)
    decreases |es|
  {
    if es == [] then s else After(Next(s, es[0]), es[1..])
  }

  lemma {:induction false} RunKeepsInv(s: State, es: seq<Event>)
    requires Inv(s) && Possible(s, es)
    ensures Inv(After(s, es))
    decreases |es|
  {
    if es != [] {
      StepKeepsInv(s, es[0]);
      RunKeepsInv(Next(s, es[0]), es[1..]);
    }
  }

  /** A process starts with no handler running and nothing blocked. */
  ghost predicate Initial(s: State) {
    && Sized(s.p) && s.p.syscall == -1 && FilterFpu(s.p.fpu) == s.p.fpu
    && s.p.mask == 0 && s.p.savedMask == 0 && !s.p.restoreMask && s.live == []
    && forall k | 0 <= k < NSIG :: s.p.actions[k] == NoDisposition()
  }

  /** In every reachable state SIGKILL and SIGSTOP are not blocked, all live frames are intact, no
      two overlap, and each base is 8 modulo 16. */
  lemma ReachableIsSafe(s: State, es: seq<Event>)
    requires Initial(s) && Possible(s, es)
    ensures var u := After(s, es);
            && u.p.mask & SigMask(9) == 0 && u.p.mask & SigMask(19) == 0
            && FramesOk(u.p.stack, u.live)
  {
    hide SigMask, Possible, After;
    NoDispositionOk();
    RunKeepsInv(s, es);
    MaskOkMeans(After(s, es).p.mask);
  }

  /** At least `n` handlers are running throughout. */
  ghost predicate Above(s: State, es: seq<Event>, n: nat)
    requires Sized(s.p) && Possible(s, es)
    decreases |es|
  {
    |s.live| >= n && (es == [] || Above(Next(s, es[0]), es[1..], n))
  }

  lemma {:induction false} OuterFramesStay(s: State, es: seq<Event>, n: nat)
    requires Sized(s.p) && Possible(s, es) && Above(s, es, n)
    ensures |After(s, es).live| >= n && After(s, es).live[..n] == s.live[..n]
    decreases |es|
  {
    if es != [] {
      hide Enabled, Delivered, Returned, NewLive;
      OuterFramesStay(Next(s, es[0]), es[1..], n);
    }
  }

  /** Any well-nested run of a handler: whatever happens between the delivery of `sig` and the return
      of its handler, the process resumes as it was interrupted, after any rewinding of an
      interrupted call, under the mask in force then or, after a sigsuspend, the mask before it. */
  lemma HandlerReturns(s: State, sig: nat, es: seq<Event>)
    requires Inv(s) && Enabled(s, Deliver(sig))
    requires var s1 := Next(s, Deliver(sig));
             && Possible(s1, es) && Above(s1, es, |s.live| + 1)
             && |After(s1, es).live| == |s.live| + 1 && After(s1, es).p.regs.rsp == BaseAt(s.p.regs.rsp) + 8
    ensures var s2 := After(Next(s, Deliver(sig)), es);
            Enabled(s2, Return)
            && var s3 := Next(s2, Return);
               && Continues(s3.p.regs, Restarted(s.p, sig))
               && (if && s.p.regs.vector == 0x80 && s.p.syscall >= 0 && s.p.regs.rax == WORD_LIMIT - 4
                      && s.p.actions[sig].flags & 0x1000_0000 != 0
                      && s.p.syscall != 130 && s.p.syscall != 7 && s.p.syscall != 271
                      && s.p.syscall != 23 && s.p.syscall != 270
                   then && s3.p.regs.rip == (s.p.regs.rip + WORD_LIMIT - 2) % WORD_LIMIT
                        && s3.p.regs.rax == s.p.syscall
                        && Continues(s3.p.regs.(rip := s.p.regs.rip, rax := s.p.regs.rax), s.p.regs)
                   else Continues(s3.p.regs, s.p.regs))
               && s3.p.mask == (if s.p.restoreMask then s.p.savedMask else s.p.mask)
               && s3.p.fpu == s.p.fpu && s3.live == s.live
  {
    hide Possible, After, Above, Continues, Restarts, Fits, Returned, Restarted, Delivered;
    hide BaseAt, FpAt, ReturnMask, Intact, LiveOk;
    var s1 := Next(s, Deliver(sig));
    StepKeepsInv(s, Deliver(sig));
    RunKeepsInv(s1, es);
    OuterFramesStay(s1, es, |s.live| + 1);
    var s2 := After(s1, es);
    assert s2.live == s2.live[..|s.live| + 1] == s1.live == s.live + [NewLive(s.p, sig)];
    assert s2.live[|s.live|] == NewLive(s.p, sig);
    ReturnResumes(s2.p, NewLive(s.p, sig));
    assert s2.live[..|s.live|] == s.live;
    MaskToReturn(s.p);
    RewindIs(s.p, sig);
    Rewound(Next(s2, Return).p.regs, Restarted(s.p, sig), s.p.regs);
  }

  lemma MaskToReturn(p: Proc)
    ensures ReturnMask(p) == if p.restoreMask then p.savedMask else p.mask
  {
  }

  lemma Rewound(r: Regs, saved: Regs, before: Regs)
    requires Continues(r, saved)
    ensures r.rip == saved.rip && r.rax == saved.rax
    ensures saved.(rip := before.rip, rax := before.rax) == before ==>
              Continues(r.(rip := before.rip, rax := before.rax), before)
  {
  }

  // ---- sigsuspend --------------------------------------------------------------------------------

  /** Only user code, or waiting. */
  ghost predicate JustRuns(es: seq<Event>) { forall k | 0 <= k < |es| :: es[k].Run? }

  lemma {:induction false} RunsKeepMasks(s: State, es: seq<Event>)
    requires Sized(s.p) && Possible(s, es) && JustRuns(es)
    ensures var u := After(s, es);
            && u.p.mask == s.p.mask && u.p.savedMask == s.p.savedMask && u.p.restoreMask == s.p.restoreMask
            && u.live == s.live
    decreases |es|
  {
    if es != [] { RunsKeepMasks(Next(s, es[0]), es[1..]); }
  }

  /** What sigsuspend is for: however long it waits under its own mask, once the handler of the signal
      that ends the wait has returned, the mask before the call is in force again. */
  lemma SuspendReturns(s: State, mask: bv64, wait: seq<Event>, sig: nat, es: seq<Event>)
    requires Inv(s) && JustRuns(wait) && Possible(Next(s, Suspend(mask)), wait)
    requires var s1 := After(Next(s, Suspend(mask)), wait);
             && Enabled(s1, Deliver(sig))
             && var s2 := Next(s1, Deliver(sig));
                && Possible(s2, es) && Above(s2, es, |s.live| + 1)
                && |After(s2, es).live| == |s.live| + 1 && After(s2, es).p.regs.rsp == BaseAt(s1.p.regs.rsp) + 8
    ensures var s1 := After(Next(s, Suspend(mask)), wait);
            var s3 := After(Next(s1, Deliver(sig)), es);
            && s1.p.mask == Catchable(mask) && |s1.live| == |s.live|
            && Enabled(s3, Return) && Next(s3, Return).p.mask == s.p.mask
  {
    hide Possible, After, Above, Enabled, CanDeliver, BaseAt, Delivered, Returned, NewLive, MasksOk, FramesOk;
    var s0 := Next(s, Suspend(mask));
    StepKeepsInv(s, Suspend(mask)) by { SuspendEnabled(s, mask); }
    RunKeepsInv(s0, wait);
    RunsKeepMasks(s0, wait);
    HandlerReturns(After(s0, wait), sig, es);
  }

  lemma SuspendEnabled(s: State, mask: bv64)
    requires Sized(s.p)
    ensures Enabled(s, Suspend(mask))
  {
  }

  // ---- any run at all -------------------------------------------------------------------------------

  /** A process that does what it likes: it forges frames, leaves handlers without returning and writes
      anywhere on its stack. */
  ghost predicate CanStep(p: Proc, e: Event)
    requires Sized(p)
  {
    match e
    case Deliver(sig) => CanDeliver(p, sig)
    case Return => Returned(p).Some?
    case Run(regs, stack, fpu, syscall) =>
      |stack| == STACK_SIZE && |fpu| == 64 && FilterFpu(fpu) == fpu && syscall < WORD_LIMIT
    case Procmask(_, _) => true
    case Suspend(_) => true
    case Sigaction(sig, _) => 1 <= sig < NSIG && sig != SIGKILL && sig != SIGSTOP
  }

  ghost predicate Conceivable(p: Proc, es: seq<Event>)
    requires Sized(p)
    decreases |es|
  {
    es == [] || (CanStep(p, es[0]) && Conceivable(Stepped(p, es[0]), es[1..]))
  }

  ghost function Ends(p: Proc, es: seq<Event>): (q: Proc)
    requires Sized(p) && Conceivable(p, es)
    ensures Sized(q)
    decreases |es|
  {
    if es == [] then p else Ends(Stepped(p, es[0]), es[1..])
  }

  /** Returning through any frame whatever leaves the process in user mode: user selectors, no flag but
      those a program may choose, user addresses, a filtered mask and a valid floating-point state. */
  lemma ReturnIsConfined(p: Proc)
    requires Sized(p) && Returned(p).Some? && FilterFpu(p.fpu) == p.fpu
    ensures var q := Returned(p).value;
            && q.regs.cs == SEL_UCODE && q.regs.ss == SEL_UDATA && q.regs.rflags & !RFLAGS_USER == RFLAGS_FIXED
            && q.regs.rip < USER_LIMIT && q.regs.rsp < USER_LIMIT
            && MaskOk(q.mask) && FilterFpu(q.fpu) == q.fpu && q.actions == p.actions && q.savedMask == p.savedMask
  {
    hide MaskOk, Catchable, FilterFpu, ToBits, Decode, Load, Store, Encode, Resumed, SigMask;
    var ws := ReturnWords(p);
    ResumedInUserMode(ws, p.regs);
    CatchableOk(ToBits(ws[38]));
    if LoadsFpu(ws[29]) { FilterTwice(SavedFpu(p.stack, ws[29])); }
  }

  /** In particular neither SIGKILL nor SIGSTOP is blocked, and no reserved bit of MXCSR is set. */
  lemma ReturnIsClean(p: Proc)
    requires Sized(p) && Returned(p).Some? && FilterFpu(p.fpu) == p.fpu
    ensures var q := Returned(p).value;
            && q.mask & SigMask(9) == 0 && q.mask & SigMask(19) == 0
            && q.fpu[3] % 0x1_0000_0000 < 0x1_0000 && q.fpu[3] / 64 % 2 == 0
  {
    hide MaskOk, FilterFpu, Returned, SigMask;
    ReturnIsConfined(p);
    FilterIs(Returned(p).value.fpu);
    MaskOkMeans(Returned(p).value.mask);
  }

  lemma ResumedInUserMode(ws: seq<Word>, now: Regs)
    requires |ws| == 55
    ensures var r := Resumed(ws, now);
            && r.rip == ws[22] && r.rsp == ws[21] && r.cs == SEL_UCODE && r.ss == SEL_UDATA
            && r.rflags & !RFLAGS_USER == RFLAGS_FIXED
  {
    hide ToBits;
    FlagsFiltered(ToBits(ws[23]));
  }

  ghost predicate Proper(p: Proc) {
    Sized(p) && p.syscall < WORD_LIMIT && MasksOk(p) && FilterFpu(p.fpu) == p.fpu
  }

  lemma AnyStepKeepsProper(p: Proc, e: Event)
    requires Proper(p) && CanStep(p, e)
    ensures Proper(Stepped(p, e))
  {
    hide MaskOk, Catchable, Masked, FilterFpu, Returned, Stacked, NewFrame, HandlerRegs, HandlerMask;
    match e
    case Deliver(sig) => DeliveryKeepsMasks(p, sig);
    case Return => ReturnIsConfined(p); ReturnedCall(p);
    case Run(_, _, _, _) =>
    case Procmask(how, set_) => MaskedOk(p.mask, how, set_);
    case Suspend(mask) => CatchableOk(mask);
    case Sigaction(_, act) => CatchableOk(act.mask);
  }

  lemma ReturnedCall(p: Proc)
    requires Sized(p) && Returned(p).Some?
    ensures Returned(p).value.syscall == -1
  {
  }

  lemma {:induction false} AnyRunKeepsProper(p: Proc, es: seq<Event>)
    requires Proper(p) && Conceivable(p, es)
    ensures Proper(Ends(p, es))
    decreases |es|
  {
    if es != [] {
      AnyStepKeepsProper(p, es[0]);
      AnyRunKeepsProper(Stepped(p, es[0]), es[1..]);
    }
  }

  /** Whatever the process does, SIGKILL and SIGSTOP are never blocked. */
  lemma NeverBlocked(s: State, es: seq<Event>)
    requires Initial(s) && Conceivable(s.p, es)
    ensures var q := Ends(s.p, es); q.mask & SigMask(9) == 0 && q.mask & SigMask(19) == 0
  {
    hide SigMask, Conceivable, Ends;
    NoDispositionOk();
    AnyRunKeepsProper(s.p, es);
    MaskOkMeans(Ends(s.p, es).mask);
  }
}
