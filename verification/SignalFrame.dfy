/** Signal frames on the user stack: where they go, what they hold, and what delivering a signal and
    returning from its handler do to a process, as in src/kernel/signal.c. */
module SignalFrame {
  import opened Prelude
  import opened Words
  import Arith

  const STACK_TOP: nat := 0x7000_0000_0000
  const STACK_SIZE: nat := 64 * 0x1000
  const STACK_LOW: nat := STACK_TOP - STACK_SIZE
  const USER_LIMIT: nat := 0x8000_0000_0000

  const FRAME_SIZE: nat := 440
  const FPSTATE_SIZE: nat := 512
  const RED_ZONE: nat := 128

  const RFLAGS_USER: bv64 := 0x240CD5
  const RFLAGS_FIXED: bv64 := 0x202
  const SA_RESTART: bv64 := 0x1000_0000
  const SA_NODEFER: bv64 := 0x4000_0000
  const SA_RESETHAND: bv64 := 0x8000_0000
  const SEL_UCODE: Word := 0x23
  const SEL_UDATA: Word := 0x1B
  const SYSCALL_VECTOR: Word := 0x80
  const SS_DISABLE: Word := 2
  const SIGKILL: nat := 9
  const SIGSTOP: nat := 19
  const NSIG: nat := 64

  /** The trap frame; only the flags are looked at bit by bit. */
  datatype Regs = Regs(
    r8: Word, r9: Word, r10: Word, r11: Word, r12: Word, r13: Word, r14: Word, r15: Word,
    rdi: Word, rsi: Word, rbp: Word, rbx: Word, rdx: Word, rax: Word, rcx: Word,
    rsp: Word, rip: Word, rflags: bv64, cs: Word, ss: Word, vector: Word, errcode: Word)

  datatype Disposition = Disposition(handler: Word, flags: bv64, restorer: Word, mask: bv64)

  /** The part of a process that signals touch.  `stack` is the main user stack, byte by byte, and
      `fpu` the 64 words that saving the floating-point unit writes. */
  datatype Proc = Proc(regs: Regs, stack: Memory, fpu: seq<Word>, mask: bv64, savedMask: bv64, restoreMask: bool,
                       syscall: int, actions: seq<Disposition>)

  predicate Sized(p: Proc) { |p.stack| == STACK_SIZE && |p.fpu| == 64 && |p.actions| == NSIG }

  // ---- signal sets ---------------------------------------------------------------------

  function SigMask(sig: nat): bv64
    requires 1 <= sig <= 64
  {
    (1 as bv64) << (sig - 1)
  }

  /** Without SIGKILL and SIGSTOP, which are bits 8 and 18. */
  function Catchable(mask: bv64): bv64 { mask & !0x4_0100 }

  /** The mask leaves SIGKILL and SIGSTOP alone. */
  predicate MaskOk(mask: bv64) { mask & 0x4_0100 == 0 }

  lemma CatchableOk(mask: bv64)
    ensures MaskOk(Catchable(mask))
    ensures MaskOk(mask) ==> Catchable(mask) == mask
  {
  }

  lemma KillAndStop()
    ensures SigMask(9) == 0x100 && SigMask(19) == 0x4_0000
  {
  }

  lemma EitherBit(m: bv64)
    ensures m & 0x4_0100 == 0 <==> m & 0x100 == 0 && m & 0x4_0000 == 0
  {
  }

  lemma MaskOkMeans(m: bv64)
    ensures MaskOk(m) <==> m & SigMask(9) == 0 && m & SigMask(19) == 0
  {
    hide SigMask;
    KillAndStop();
    EitherBit(m);
  }

  // ---- where a frame goes -----------------------------------------------------------------

  function Minus(a: Word, b: nat): Word
    requires b < WORD_LIMIT
  {
    if b <= a then a - b else a + WORD_LIMIT - b
  }

  function AlignDown(a: Word, n: nat): Word
    requires n > 0
  {
    a - a % n
  }

  /** Where the floating-point state goes, below the red zone, and the frame below that. */
  function FpAt(rsp: Word): Word { AlignDown(Minus(Minus(rsp, RED_ZONE), FPSTATE_SIZE), 64) }

  function BaseAt(rsp: Word): Word { Minus(AlignDown(Minus(FpAt(rsp), FRAME_SIZE), 16), 8) }

  predicate OnUserStack(addr: Word, len: nat) { STACK_LOW <= addr < STACK_TOP && addr + len <= STACK_TOP }

  predicate Fits(rsp: Word) { OnUserStack(BaseAt(rsp), FRAME_SIZE) && OnUserStack(FpAt(rsp), FPSTATE_SIZE) }

  /** A frame lies below its floating-point state, and both below the red zone of the interrupted
      code; its base is where a handler expects the stack after a call. */
  lemma Layout(rsp: Word)
    requires Fits(rsp)
    ensures STACK_LOW <= BaseAt(rsp) && BaseAt(rsp) + FRAME_SIZE <= FpAt(rsp)
    ensures FpAt(rsp) + FPSTATE_SIZE <= rsp - RED_ZONE && FpAt(rsp) + FPSTATE_SIZE <= STACK_TOP
    ensures BaseAt(rsp) % 16 == 8 && FpAt(rsp) % 64 == 0 && rsp < USER_LIMIT
  {
    hide AlignDown;
    Aligned(Minus(Minus(rsp, RED_ZONE), FPSTATE_SIZE), 64);
    assert RED_ZONE + FPSTATE_SIZE <= rsp;
    Aligned(Minus(FpAt(rsp), FRAME_SIZE), 16);
  }

  lemma Aligned(a: Word, n: nat)
    requires n == 16 || n == 64
    ensures a - n < AlignDown(a, n) <= a && AlignDown(a, n) % n == 0
  {
  }

  /** Flags and masks as they are stored in memory. */
  function ToWord(b: bv64): (w: Word)
    ensures ToBits(w) == b
  {
    b as nat
  }

  function ToBits(w: Word): bv64 { w as bv64 }

  // ---- what a frame holds -----------------------------------------------------------------------

  function Packed(cs: Word, ss: Word): (w: Word)
  {
    cs % 0x1_0000 + 0x1_0000_0000_0000 * (ss % 0x1_0000)
  }

  /** The 55 words of a frame, in the order the Linux ABI lays them out. */
  function FrameWords(r: Regs, retmask: bv64, fp: Word, restorer: Word, sig: Word): (ws: seq<Word>)
    ensures |ws| == 55
  {
    [restorer, 0, 0, 0, SS_DISABLE, 0]
    + [r.r8, r.r9, r.r10, r.r11, r.r12, r.r13, r.r14, r.r15]
    + [r.rdi, r.rsi, r.rbp, r.rbx, r.rdx, r.rax, r.rcx, r.rsp]
    + [r.rip, ToWord(r.rflags), Packed(r.cs, r.ss), r.errcode, r.vector, ToWord(retmask), 0, fp]
    + [0, 0, 0, 0, 0, 0, 0, 0]
    + [ToWord(retmask)]
    + [sig, 0, 0, 0, 0, 0, 0, 0, 0, 0, 0, 0, 0, 0, 0, 0]
  }

  lemma FrameParts(r: Regs, retmask: bv64, fp: Word, restorer: Word, sig: Word)
    ensures var ws := FrameWords(r, retmask, fp, restorer, sig);
            && ws[6..14] == [r.r8, r.r9, r.r10, r.r11, r.r12, r.r13, r.r14, r.r15]
            && ws[14..22] == [r.rdi, r.rsi, r.rbp, r.rbx, r.rdx, r.rax, r.rcx, r.rsp]
            && ws[22..30] == [r.rip, ToWord(r.rflags), Packed(r.cs, r.ss), r.errcode, r.vector, ToWord(retmask), 0, fp]
            && ws[38] == ToWord(retmask) && ws[0] == restorer && ws[39] == sig
  {
    hide ToWord, ToBits, Packed;
  }

  /** The registers a frame resumes; `now` supplies what a frame does not restore. */
  function Resumed(ws: seq<Word>, now: Regs): Regs
    requires |ws| == 55
  {
    now.(r8 := ws[6], r9 := ws[7], r10 := ws[8], r11 := ws[9], r12 := ws[10], r13 := ws[11], r14 := ws[12], r15 := ws[13],
         rdi := ws[14], rsi := ws[15], rbp := ws[16], rbx := ws[17], rdx := ws[18], rax := ws[19], rcx := ws[20],
         rsp := ws[21], rip := ws[22], cs := SEL_UCODE, ss := SEL_UDATA,
         rflags := (ToBits(ws[23]) & RFLAGS_USER) | RFLAGS_FIXED)
  }

  /** `r` continues where `saved` was interrupted: every general register, the instruction and stack
      pointers, and the flags a program may choose. */
  predicate Continues(r: Regs, saved: Regs) {
    && r.r8 == saved.r8 && r.r9 == saved.r9 && r.r10 == saved.r10 && r.r11 == saved.r11
    && r.r12 == saved.r12 && r.r13 == saved.r13 && r.r14 == saved.r14 && r.r15 == saved.r15
    && r.rdi == saved.rdi && r.rsi == saved.rsi && r.rbp == saved.rbp && r.rbx == saved.rbx
    && r.rdx == saved.rdx && r.rax == saved.rax && r.rcx == saved.rcx
    && r.rsp == saved.rsp && r.rip == saved.rip
    && r.rflags & RFLAGS_USER == saved.rflags & RFLAGS_USER
    && r.rflags & !RFLAGS_USER == RFLAGS_FIXED
    && r.cs == SEL_UCODE && r.ss == SEL_UDATA
  }

  lemma FlagsFiltered(f: bv64)
    ensures ((f & RFLAGS_USER) | RFLAGS_FIXED) & RFLAGS_USER == f & RFLAGS_USER
    ensures ((f & RFLAGS_USER) | RFLAGS_FIXED) & !RFLAGS_USER == RFLAGS_FIXED
  {
  }

  /** What a frame saves is what it resumes. */
  lemma FrameContinues(r: Regs, retmask: bv64, fp: Word, restorer: Word, sig: Word, now: Regs)
    ensures var ws := FrameWords(r, retmask, fp, restorer, sig);
            Continues(Resumed(ws, now), r) && ws[21] == r.rsp && ws[22] == r.rip && ws[29] == fp
            && ToBits(ws[38]) == retmask
  {
    var ws := FrameWords(r, retmask, fp, restorer, sig);
    FlagsFiltered(r.rflags);
    FrameParts(r, retmask, fp, restorer, sig);
    hide FrameWords, Packed, ToBits;
    forall k | 0 <= k < 8 ensures ws[6 + k] == ws[6..14][k] && ws[14 + k] == ws[14..22][k] && ws[22 + k] == ws[22..30][k] {
    }
  }

  // ---- the floating-point state -------------------------------------------------------------------

  /** MXCSR without its reserved bits, which are bit 6 and the upper half. */
  function ValidMxcsr(mxcsr: nat): (k: nat)
    ensures k < 0x1_0000
  {
    var k := mxcsr % 0x1_0000;
    if k / 64 % 2 == 1 then k - 64 else k
  }

  /** Word 3 of the saved state, whose low half is MXCSR, with the reserved bits cleared. */
  function FilterMxcsr(w: Word): Word {
    w / 0x1_0000_0000 * 0x1_0000_0000 + ValidMxcsr(w % 0x1_0000_0000)
  }

  function FilterFpu(fpu: seq<Word>): (r: seq<Word>)
    requires |fpu| == 64
    ensures |r| == 64
  {
    fpu[3 := FilterMxcsr(fpu[3])]
  }

  /** The filter clears bit 6 and bits 16 to 31 of MXCSR and changes nothing else. */
  lemma FilterIs(fpu: seq<Word>)
    requires |fpu| == 64
    ensures var w, v := fpu[3], FilterFpu(fpu)[3];
            && v / 0x1_0000_0000 == w / 0x1_0000_0000 && v % 0x1_0000_0000 < 0x1_0000
            && v / 64 % 2 == 0 && v % 64 == w % 64 && v % 0x1_0000 / 128 == w % 0x1_0000 / 128
    ensures forall k | 0 <= k < 64 && k != 3 :: FilterFpu(fpu)[k] == fpu[k]
  {
    FilteredBits(fpu[3]);
  }

  lemma FilteredBits(w: Word)
    ensures var v := FilterMxcsr(w);
            && v / 0x1_0000_0000 == w / 0x1_0000_0000 && v % 0x1_0000_0000 < 0x1_0000
            && v / 64 % 2 == 0 && v % 64 == w % 64 && v % 0x1_0000 / 128 == w % 0x1_0000 / 128
  {
    var high, low := w / 0x1_0000_0000, w % 0x1_0000_0000;
    var mid, k := low / 0x1_0000, low % 0x1_0000;
    var top, bit, rest := k / 128, k / 64 % 2, k % 64;
    Digits(high, mid, top, bit, rest);
    Digits(high, 0, top, 0, rest);
    assert w == high * 0x1_0000_0000 + mid * 0x1_0000 + 128 * top + 64 * bit + rest;
    assert FilterMxcsr(w) == high * 0x1_0000_0000 + 0 * 0x1_0000 + 128 * top + 64 * 0 + rest;
  }

  lemma Digits(high: nat, mid: nat, top: nat, bit: nat, rest: nat)
    requires mid < 0x1_0000 && top < 512 && bit < 2 && rest < 64
    ensures var w := high * 0x1_0000_0000 + mid * 0x1_0000 + 128 * top + 64 * bit + rest;
            && w / 0x1_0000_0000 == high && w % 0x1_0000_0000 == mid * 0x1_0000 + 128 * top + 64 * bit + rest
            && w / 64 % 2 == bit && w % 64 == rest && w % 0x1_0000 == 128 * top + 64 * bit + rest
            && (128 * top + 64 * bit + rest) / 128 == top
  {
    var k := 128 * top + 64 * bit + rest;
    var w := high * 0x1_0000_0000 + mid * 0x1_0000 + k;
    Arith.DivModUnique(w, 0x1_0000_0000, high, mid * 0x1_0000 + k);
    Arith.DivModUnique(w, 0x1_0000, high * 0x1_0000 + mid, k);
    var sixes := high * 0x400_0000 + mid * 0x400 + 2 * top + bit;
    Arith.DivModUnique(w, 64, sixes, rest);
    Arith.DivModUnique(sixes, 2, high * 0x200_0000 + mid * 0x200 + top, bit);
    Arith.DivModUnique(k, 128, top, 64 * bit + rest);
  }

  lemma FilterTwice(fpu: seq<Word>)
    requires |fpu| == 64
    ensures FilterFpu(FilterFpu(fpu)) == FilterFpu(fpu)
  {
    FilterWordTwice(fpu[3]);
  }

  lemma FilterWordTwice(w: Word)
    ensures FilterMxcsr(FilterMxcsr(w)) == FilterMxcsr(w)
  {
    var high, k := w / 0x1_0000_0000, ValidMxcsr(w % 0x1_0000_0000);
    ValidTwice(w % 0x1_0000_0000);
    assert FilterMxcsr(w) / 0x1_0000_0000 == high && FilterMxcsr(w) % 0x1_0000_0000 == k;
  }

  lemma ValidTwice(m: nat)
    ensures ValidMxcsr(ValidMxcsr(m)) == ValidMxcsr(m)
  {
    var k := m % 0x1_0000;
    if k / 64 % 2 == 1 { assert (k - 64) / 64 == k / 64 - 1; }
  }

  // ---- delivering -----------------------------------------------------------------------------------

  predicate NeverRestarts(nr: int) { nr in {130, 7, 271, 23, 270} }

  /** The interrupted call runs again after the handler. */
  predicate Restarts(p: Proc, sig: nat)
    requires Sized(p) && sig < NSIG
  {
    && p.regs.vector == SYSCALL_VECTOR && p.syscall >= 0
    && p.regs.rax == WORD_LIMIT - 4
    && p.actions[sig].flags & SA_RESTART != 0
    && !NeverRestarts(p.syscall)
  }

  function Restarted(p: Proc, sig: nat): Regs
    requires Sized(p) && sig < NSIG && p.syscall < WORD_LIMIT
  {
    if Restarts(p, sig) then p.regs.(rax := p.syscall, rip := Minus(p.regs.rip, 2)) else p.regs
  }

  /** What rewinding does: an interrupted call whose handler asks for it, and that is not one of the five that
      never run again, is issued anew by the two-byte trap instruction before RIP; otherwise nothing. */
  lemma RewindIs(p: Proc, sig: nat)
    requires Sized(p) && sig < NSIG && p.syscall < WORD_LIMIT
    ensures var r := Restarted(p, sig);
            if && p.regs.vector == 0x80 && p.syscall >= 0 && p.regs.rax == WORD_LIMIT - 4
               && p.actions[sig].flags & 0x1000_0000 != 0
               && p.syscall != 130 && p.syscall != 7 && p.syscall != 271 && p.syscall != 23 && p.syscall != 270
            then && r.rip == (p.regs.rip + WORD_LIMIT - 2) % WORD_LIMIT && r.rax == p.syscall
                 && r.(rip := p.regs.rip, rax := p.regs.rax) == p.regs
            else r == p.regs
  {
  }

  /** The mask to come back to: the one in force, or after a sigsuspend the one before it. */
  function ReturnMask(p: Proc): bv64 { if p.restoreMask then p.savedMask else p.mask }

  /** What is blocked while the handler runs. */
  function HandlerMask(mask: bv64, act: Disposition, sig: nat): bv64
    requires 1 <= sig < NSIG
  {
    Catchable(mask | act.mask | (if act.flags & SA_NODEFER == 0 then SigMask(sig) else 0))
  }

  /** While the handler runs, of the signals that can be blocked, exactly those are blocked that were
      blocked before, that the handler asks for, or that it handles unless it asks not to; `b` is any
      set of such signals. */
  lemma HandlerBlocks(mask: bv64, act: Disposition, sig: nat, b: bv64)
    requires 1 <= sig < NSIG && MaskOk(b)
    ensures HandlerMask(mask, act, sig) & b
         == (mask & b) | (act.mask & b) | (if act.flags & SA_NODEFER == 0 then SigMask(sig) & b else 0)
  {
    hide SigMask;
    if act.flags & SA_NODEFER == 0 {
      FilteredUnion(mask, act.mask, SigMask(sig), b);
    } else {
      FilteredUnion(mask, act.mask, 0, b);
    }
  }

  lemma FilteredUnion(x: bv64, y: bv64, z: bv64, b: bv64)
    requires MaskOk(b)
    ensures Catchable(x | y | z) & b == (x & b) | (y & b) | (z & b)
  {
    CatchableOk(b);
    MaskMoves(x | y | z, b);
    Distributes(x, y, z, b);
  }

  lemma MaskMoves(x: bv64, b: bv64)
    ensures (x & !0x4_0100) & b == x & (b & !0x4_0100)
  {
  }

  lemma Distributes(x: bv64, y: bv64, z: bv64, b: bv64)
    ensures (x | y | z) & b == (x & b) | (y & b) | (z & b)
  {
  }

  function HandlerRegs(r: Regs, handler: Word, base: Word, sig: Word): Regs
    requires base + FRAME_SIZE < WORD_LIMIT
  {
    r.(rip := handler, rsp := base, rdi := sig, rsi := base + 312, rdx := base + 8, rax := 0,
       rflags := r.rflags & !0x500)
  }

  function NoDisposition(): Disposition { Disposition(0, 0, 0, 0) }

  /** The user stack with a frame and the floating-point state in it. */
  function Stacked(m: Memory, rsp: Word, ws: seq<Word>, fpu: seq<Word>): (m': Memory)
    requires |m| == STACK_SIZE && Fits(rsp) && |ws| == 55 && |fpu| == 64
    ensures |m'| == STACK_SIZE
  {
    Layout(rsp);
    Store(Store(m, BaseAt(rsp) - STACK_LOW, Encode(ws)), FpAt(rsp) - STACK_LOW, Encode(fpu))
  }

  /** The frame that delivering `sig` writes. */
  function NewFrame(p: Proc, sig: nat): (ws: seq<Word>)
    requires Sized(p) && 1 <= sig < NSIG && p.syscall < WORD_LIMIT
    ensures |ws| == 55
  {
    FrameWords(Restarted(p, sig), ReturnMask(p), FpAt(p.regs.rsp), p.actions[sig].restorer, sig)
  }

  function Delivered(p: Proc, sig: nat): (p': Proc)
    requires Sized(p) && 1 <= sig < NSIG && p.syscall < WORD_LIMIT && Fits(p.regs.rsp)
    ensures Sized(p')
  {
    var act := p.actions[sig];
    p.(regs := HandlerRegs(Restarted(p, sig), act.handler, BaseAt(p.regs.rsp), sig),
       stack := Stacked(p.stack, p.regs.rsp, NewFrame(p, sig), p.fpu),
       mask := HandlerMask(p.mask, act, sig),
       restoreMask := false,
       actions := if act.flags & SA_RESETHAND != 0 then p.actions[sig := NoDisposition()] else p.actions)
  }

  // ---- returning -----------------------------------------------------------------------------------

  /** The frame a return resumes from: one word below the stack pointer. */
  function ReturnWords(p: Proc): (ws: seq<Word>)
    requires Sized(p) && OnUserStack(Minus(p.regs.rsp, 8), FRAME_SIZE)
    ensures |ws| == 55
  {
    Decode(Load(p.stack, Minus(p.regs.rsp, 8) - STACK_LOW, FRAME_SIZE))
  }

  predicate LoadsFpu(fp: Word) { fp != 0 && fp % 16 == 0 && OnUserStack(fp, FPSTATE_SIZE) }

  function SavedFpu(m: Memory, fp: Word): (ws: seq<Word>)
    requires |m| == STACK_SIZE && LoadsFpu(fp)
    ensures |ws| == 64
  {
    Decode(Load(m, fp - STACK_LOW, FPSTATE_SIZE))
  }

  /** The process after its handler returned, or nothing if the frame gets it killed. */
  function Returned(p: Proc): (r: Option<Proc>)
    requires Sized(p)
    ensures r.Some? ==> Sized(r.value)
  {
    if !OnUserStack(Minus(p.regs.rsp, 8), FRAME_SIZE) then None
    else
      var ws := ReturnWords(p);
      if ws[22] >= USER_LIMIT || ws[21] >= USER_LIMIT then None
      else
        var q := p.(regs := Resumed(ws, p.regs), mask := Catchable(ToBits(ws[38])), syscall := -1);
        if !LoadsFpu(ws[29]) then Some(q)
        else
          var fpu := FilterFpu(SavedFpu(p.stack, ws[29]));
          Some(q.(fpu := fpu, stack := Store(p.stack, ws[29] - STACK_LOW, Encode(fpu))))
  }
}
