/** The trap frame, user stack and signal fields of one process, changed in place as
    src/kernel/signal.c and the mask calls of src/kernel/syscall.c change them. */
module Signals {
  import opened Prelude
  import opened Words
  import opened SignalFrame
  import opened SignalRuns

  class Process {
    var regs: Regs
    var stack: array<Octet>
    var fpu: seq<Word>
    var mask: bv64
    var savedMask: bv64
    var restoreMask: bool
    var syscall: int
    var actions: seq<Disposition>

    ghost predicate Valid()
      reads this
    {
      stack.Length == STACK_SIZE && |fpu| == 64 && |actions| == NSIG && syscall < WORD_LIMIT
    }

    ghost function View(): Proc
      reads this, stack
    {
      Proc(regs, stack[..], fpu, mask, savedMask, restoreMask, syscall, actions)
    }

    /** A call cut short by the signal is rewound to run again. */
    method MaybeRestart(sig: nat)
      requires Valid() && sig < NSIG
      modifies this`regs
      ensures regs == old(Restarted(View(), sig))
      ensures if && old(regs).vector == 0x80 && syscall >= 0 && old(regs).rax == WORD_LIMIT - 4
                 && actions[sig].flags & 0x1000_0000 != 0
                 && syscall != 130 && syscall != 7 && syscall != 271 && syscall != 23 && syscall != 270
              then && regs.rip == (old(regs).rip + WORD_LIMIT - 2) % WORD_LIMIT && regs.rax == syscall
                   && regs.(rip := old(regs).rip, rax := old(regs).rax) == old(regs)
              else regs == old(regs)
    {
      RewindIs(View(), sig);
      if regs.vector != SYSCALL_VECTOR || syscall < 0 {
        return;
      }
      if regs.rax != WORD_LIMIT - 4 {
        return;
      }
      if actions[sig].flags & SA_RESTART == 0 {
        return;
      }
      if NeverRestarts(syscall) {
        return;
      }
      regs := regs.(rax := syscall);
      regs := regs.(rip := Minus(regs.rip, 2));
    }

    /** Writes words to the user stack, a byte at a time. */
    method Write(addr: Word, ws: seq<Word>)
      requires Valid() && STACK_LOW <= addr && addr + 8 * |ws| <= STACK_TOP
      modifies stack
      ensures stack[..] == Store(old(stack[..]), addr - STACK_LOW, Encode(ws))
    {
      var at := addr - STACK_LOW;
      ghost var before := stack[..];
      for i := 0 to |ws|
        invariant stack[..] == Store(before, at, Encode(ws[..i]))
      {
        WriteWord(at + 8 * i, ws[i]);
        assert ws[..i + 1] == ws[..i] + [ws[i]];
        EncodeConcat(ws[..i], [ws[i]]);
        StoreNext(before, at, Encode(ws[..i]), Bytes(ws[i], 8));
      }
      assert ws[..|ws|] == ws;
    }

    method WriteWord(at: nat, w: Word)
      requires at + 8 <= stack.Length
      modifies stack
      ensures stack[..] == Store(old(stack[..]), at, Bytes(w, 8))
    {
      forall k | 0 <= k < 8 {
        stack[at + k] := Bytes(w, 8)[k];
      }
    }

    method WriteFrame(base: Word, fp: Word, ws: seq<Word>)
      requires Valid() && |ws| == 55 && Fits(regs.rsp) && base == BaseAt(regs.rsp) && fp == FpAt(regs.rsp)
      modifies stack
      ensures stack[..] == Stacked(old(stack[..]), regs.rsp, ws, fpu)
    {
      hide BaseAt, FpAt, Encode, Store;
      Layout(regs.rsp);
      Write(base, ws);
      Write(fp, fpu);
    }

    /** The mask the frame remembers; the one a sigsuspend parked is used up. */
    method TakeReturnMask() returns (retmask: bv64)
      requires Valid()
      modifies this`restoreMask
      ensures retmask == old(ReturnMask(View())) && !restoreMask
    {
      retmask := mask;
      if restoreMask {
        retmask := savedMask;
        restoreMask := false;
      }
    }

    /** Blocks what the handler asks for, and its own signal unless it asks not to. */
    method BlockForHandler(sig: nat, act: Disposition)
      requires Valid() && 1 <= sig < NSIG
      modifies this`mask
      ensures mask == HandlerMask(old(mask), act, sig)
    {
      hide SigMask;
      mask := mask | act.mask;
      if act.flags & SA_NODEFER == 0 {
        mask := mask | SigMask(sig);
      }
      mask := mask & !0x4_0100;
    }

    /** `signal_deliver`, with no alternate stack: the frame goes below the red zone, or the delivery
        is refused, after the rewinding, when the stack has no room. */
    method Deliver(sig: nat) returns (ok: bool)
      requires Valid() && 1 <= sig < NSIG
      modifies this`regs, this`mask, this`restoreMask, this`actions, stack
      ensures Valid() && ok == Fits(old(regs.rsp))
      ensures ok ==> View() == Delivered(old(View()), sig)
      ensures !ok ==> View() == old(View()).(regs := Restarted(old(View()), sig))
    {
      hide FrameWords, BaseAt, FpAt, Stacked, Restarted, HandlerMask, HandlerRegs, OnUserStack;
      var act := actions[sig];
      RestartKeepsStack(View(), sig);
      MaybeRestart(sig);
      var fp, base := FpAt(regs.rsp), BaseAt(regs.rsp);
      if !OnUserStack(base, FRAME_SIZE) || !OnUserStack(fp, FPSTATE_SIZE) {
        return false;
      }
      Layout(regs.rsp);
      var retmask := TakeReturnMask();
      WriteFrame(base, fp, FrameWords(regs, retmask, fp, act.restorer, sig));
      BlockForHandler(sig, act);
      if act.flags & SA_RESETHAND != 0 {
        actions := actions[sig := NoDisposition()];
      }
      regs := HandlerRegs(regs, act.handler, base, sig);
      return true;
    }

    /** Reloads the floating-point state a frame points to, with reserved bits cleared. */
    method LoadFpu(fp: Word)
      requires Valid()
      modifies this`fpu, stack
      ensures Valid()
      ensures !LoadsFpu(fp) ==> fpu == old(fpu) && stack[..] == old(stack[..])
      ensures LoadsFpu(fp) ==>
                && fpu == FilterFpu(SavedFpu(old(stack[..]), fp))
                && stack[..] == Store(old(stack[..]), fp - STACK_LOW, Encode(fpu))
    {
      hide Decode, Load, Store, FilterFpu, Encode;
      if fp != 0 && fp % 16 == 0 && OnUserStack(fp, FPSTATE_SIZE) {
        fpu := FilterFpu(SavedFpu(stack[..], fp));
        Write(fp, fpu);
      }
    }

    /** `signal_return`: resumes from the frame below the stack pointer, or reports that the process
        is to be killed. */
    method SigReturn() returns (alive: bool)
      requires Valid()
      modifies this`regs, this`mask, this`fpu, this`syscall, stack
      ensures Valid()
      ensures alive <==> Returned(old(View())).Some?
      ensures alive ==> Some(View()) == Returned(old(View()))
    {
      hide Resumed, Encode, Decode, Load, Store, FilterFpu, SavedFpu, LoadsFpu, Catchable, ToBits;
      var base := Minus(regs.rsp, 8);
      if !OnUserStack(base, FRAME_SIZE) {
        return false;
      }
      var ws := Decode(Load(stack[..], base - STACK_LOW, FRAME_SIZE));
      assert ws == ReturnWords(View());
      ResumedInUserMode(ws, regs);
      regs := Resumed(ws, regs);
      if regs.rip >= USER_LIMIT || regs.rsp >= USER_LIMIT {
        return false;
      }
      mask := Catchable(ToBits(ws[38]));
      LoadFpu(ws[29]);
      syscall := -1;
      return true;
    }

    /** `rt_sigprocmask`, once its arguments are accepted; reports the mask before. */
    method Sigprocmask(how: How, set_: bv64) returns (previous: bv64)
      requires Valid()
      modifies this`mask
      ensures View() == Stepped(old(View()), Procmask(how, set_)) && MaskOk(mask) && previous == old(mask)
    {
      hide MaskOk, Catchable;
      previous := mask;
      match how {
        case Block => mask := mask | set_;
        case Unblock => mask := mask & !set_;
        case SetTo => mask := set_;
      }
      CatchableOk(mask);
      mask := Catchable(mask);
    }

    /** `rt_sigsuspend`, up to the wait: the next handler comes back to the mask of before the call. */
    method Sigsuspend(newmask: bv64)
      requires Valid()
      modifies this`mask, this`savedMask, this`restoreMask
      ensures View() == Stepped(old(View()), Suspend(newmask))
      ensures ReturnMask(View()) == old(mask) && MaskOk(mask)
    {
      hide MaskOk, Catchable;
      savedMask := mask;
      restoreMask := true;
      mask := Catchable(newmask);
      CatchableOk(newmask);
    }
  }

  lemma StoreNext(m: Memory, at: nat, a: seq<Octet>, b: seq<Octet>)
    requires at + |a| + |b| <= |m|
    ensures Store(Store(m, at, a), at + |a|, b) == Store(m, at, a + b)
  {
  }
}
