/** Saved contexts: the register, stack and CR3 sequence of `switch_to`, and the hand-built first frame of a
    thread. */
module Context {
  import opened Frames

  /** 64-bit words by address; every address used here is a multiple of 8. */
  type Words = map<nat, nat>

  /** The registers a called function must preserve. */
  datatype Regs = Regs(rbp: nat, rbx: nat, r12: nat, r13: nat, r14: nat, r15: nat)

  /** Where and how a thread continues when `switch_to` returns to it. */
  datatype Resume = Resume(regs: Regs, rip: nat, rsp: nat)

  /** The seven words at `sp` hold a saved context. */
  predicate HasFrame(mem: Words, sp: nat, c: Resume) {
    && (forall a :: a in {sp, sp + 8, sp + 16, sp + 24, sp + 32, sp + 40, sp + 48} ==> a in mem)
    && mem[sp] == c.regs.r15 && mem[sp + 8] == c.regs.r14 && mem[sp + 16] == c.regs.r13 && mem[sp + 24] == c.regs.r12
    && mem[sp + 32] == c.regs.rbx && mem[sp + 40] == c.regs.rbp && mem[sp + 48] == c.rip && c.rsp == sp + 56
  }

  /** Memory after the pushes of `switch_to` and the store of RSP through its first argument. */
  function SaveFrame(mem: Words, regs: Regs, rsp: nat, slot: nat): Words
    requires rsp >= 48
  {
    mem[rsp - 8 := regs.rbp][rsp - 16 := regs.rbx][rsp - 24 := regs.r12][rsp - 32 := regs.r13][rsp - 40 := regs.r14]
       [rsp - 48 := regs.r15][slot := rsp - 48]
  }

  /** Saving leaves a frame for the caller of `switch_to` and touches nothing above it. */
  lemma SavedFrame(mem: Words, regs: Regs, rsp: nat, slot: nat)
    requires rsp >= 48 && rsp in mem && !(rsp - 48 <= slot <= rsp)
    ensures HasFrame(SaveFrame(mem, regs, rsp, slot), rsp - 48, Resume(regs, mem[rsp], rsp + 8))
    ensures forall a: nat :: !(rsp - 48 <= a < rsp) && a != slot ==> Keeps(mem, SaveFrame(mem, regs, rsp, slot), a)
  {
    SavedElsewhere(mem, regs, rsp, slot);
    hide Keeps;
  }

  lemma SavedElsewhere(mem: Words, regs: Regs, rsp: nat, slot: nat)
    requires rsp >= 48
    ensures forall a: nat :: !(rsp - 48 <= a < rsp) && a != slot ==> Keeps(mem, SaveFrame(mem, regs, rsp, slot), a)
  {
  }

  predicate Keeps(mem: Words, mem': Words, a: nat) {
    a in mem ==> a in mem' && mem'[a] == mem[a]
  }

  lemma FrameElsewhere(mem: Words, mem': Words, sp: nat, c: Resume)
    requires HasFrame(mem, sp, c)
    requires forall a: nat :: sp <= a < sp + 56 ==> Keeps(mem, mem', a)
    ensures HasFrame(mem', sp, c)
  {
    assert Keeps(mem, mem', sp) && Keeps(mem, mem', sp + 8) && Keeps(mem, mem', sp + 16) && Keeps(mem, mem', sp + 24);
    assert Keeps(mem, mem', sp + 32) && Keeps(mem, mem', sp + 40) && Keeps(mem, mem', sp + 48);
  }

  /** A frame determines the context. */
  lemma FrameUnique(mem: Words, sp: nat, c: Resume, d: Resume)
    requires HasFrame(mem, sp, c) && HasFrame(mem, sp, d)
    ensures c == d
  {
  }

  class Processor {
    var regs: Regs
    var rsp: nat
    var rip: nat
    var cr3: Frame
    var mem: Words
    /** Which addresses each page table maps. */
    ghost const view: (Frame, nat) -> bool

    ghost constructor (maps: (Frame, nat) -> bool)
      ensures view == maps
    {
      view := maps;
    }

    method Push(v: nat)
      requires rsp >= 8 && view(cr3, rsp - 8)
      modifies this`rsp, this`mem
      ensures rsp == old(rsp) - 8 && mem == old(mem)[rsp := v]
    {
      rsp := rsp - 8;
      mem := mem[rsp := v];
    }

    method PopWord() returns (v: nat)
      requires rsp in mem && view(cr3, rsp)
      modifies this`rsp
      ensures v == mem[old(rsp)] && rsp == old(rsp) + 8
    {
      v := mem[rsp];
      rsp := rsp + 8;
    }

    /** `switch_to`, called with the return address on top of the stack: the caller is left resumable at
        `old_stack_slot`, and the processor continues as the context saved at `newStack`. The pushes need
        the old stack under the old table, the pops the new stack under the new one. */
    method SwitchTo(slot: nat, newStack: nat, newTable: Frame, ghost c: Resume)
      requires rsp >= 48 && rsp in mem
      requires !(rsp - 48 <= slot <= rsp) && !(newStack <= slot < newStack + 56)
      requires rsp <= newStack || newStack + 56 <= rsp - 48
      requires HasFrame(mem, newStack, c)
      requires forall a :: rsp - 48 <= a < rsp || a == slot ==> view(cr3, a)
      requires forall a :: newStack <= a < newStack + 56 ==> view(newTable, a)
      modifies this
      ensures mem == SaveFrame(old(mem), old(regs), old(rsp), slot)
      ensures Resume(regs, rip, rsp) == c && cr3 == newTable
    {
      ghost var before, r, top := mem, regs, rsp;
      SaveContext(slot);
      SavedFrame(before, r, top, slot);
      FrameElsewhere(before, mem, newStack, c);
      hide SaveFrame, HasFrame;
      cr3 := newTable;
      rsp := newStack;
      PopRegs(c);
    }

    method SaveContext(slot: nat)
      requires rsp >= 48
      requires forall a :: rsp - 48 <= a < rsp || a == slot ==> view(cr3, a)
      modifies this`rsp, this`mem
      ensures mem == SaveFrame(old(mem), regs, old(rsp), slot)
    {
      PushRegs();
      mem := mem[slot := rsp];
    }

    method PushRegs()
      requires rsp >= 48
      requires forall a :: rsp - 48 <= a < rsp ==> view(cr3, a)
      modifies this`rsp, this`mem
      ensures rsp == old(rsp) - 48
      ensures mem == old(mem)[old(rsp) - 8 := regs.rbp][old(rsp) - 16 := regs.rbx][old(rsp) - 24 := regs.r12]
                             [old(rsp) - 32 := regs.r13][old(rsp) - 40 := regs.r14][old(rsp) - 48 := regs.r15]
    {
      Push(regs.rbp);
      Push(regs.rbx);
      Push(regs.r12);
      Push(regs.r13);
      Push(regs.r14);
      Push(regs.r15);
    }

    method PopRegs(ghost c: Resume)
      requires HasFrame(mem, rsp, c)
      requires forall a :: rsp <= a < rsp + 56 ==> view(cr3, a)
      modifies this`rsp, this`regs, this`rip
      ensures Resume(regs, rip, rsp) == c
    {
      var r15 := PopWord();
      var r14 := PopWord();
      var r13 := PopWord();
      var r12 := PopWord();
      var rbx := PopWord();
      var rbp := PopWord();
      regs := Regs(rbp, rbx, r12, r13, r14, r15);
      rip := PopWord();
    }
  }

  // ---------------------------------------------------------------- the first frame

  const STACK_SIZE: nat := 64 * 1024

  /** The address of word `j` of a frame written downwards from `top`. */
  function WordAddr(top: nat, j: nat): int {
    top - 8 * j
  }

  /** The first `i` words of `frame` are in place. */
  ghost predicate Filled(mem: Words, top: nat, frame: seq<nat>, i: nat) {
    forall j: nat :: j < i && j < |frame| ==> WordAddr(top, j) in mem && mem[WordAddr(top, j)] == frame[j]
  }

  /** Nothing outside the stack changed. */
  ghost predicate Outside(mem: Words, mem': Words, base: nat) {
    forall a: nat :: !(base <= a < base + STACK_SIZE) ==> Keeps(mem, mem', a)
  }

  /** `build_initial_stack`: seven words written downwards from 16 below the stack's end, the trampoline's address
      and six zeros. Whatever context is read back from them begins at the trampoline with its registers
      zero, on this stack, with RSP equal to 8 modulo 16 as after a call. */
  method BuildInitialStack(mem: Words, base: nat, trampoline: nat) returns (out: Words, sp: nat)
    requires base % 16 == 0
    ensures exists c :: HasFrame(out, sp, c)
    ensures forall c :: HasFrame(out, sp, c) ==>
              && c.rip == trampoline && c.regs == Regs(0, 0, 0, 0, 0, 0)
              && c.rsp == base + 65528 && c.rsp % 16 == 8
    ensures base <= sp && sp + 56 <= base + 65536 && sp % 8 == 0
    ensures sp + 48 in out && out[sp + 48] == trampoline
    ensures forall k: nat :: k < 6 ==> sp + 8 * k in out && out[sp + 8 * k] == 0
    ensures Outside(mem, out, base)
  {
    var frameTop := base + STACK_SIZE - 16;
    var frame := [trampoline, 0, 0, 0, 0, 0, 0];
    out := mem;
    var i := 0;
    while i < |frame|
      invariant i <= |frame| && Filled(out, frameTop, frame, i) && Outside(mem, out, base)
    {
      hide *;
      out := WriteWord(out, mem, base, frameTop, frame, i);
      i := i + 1;
    }
    sp := frameTop - (|frame| - 1) * 8;
    hide Outside;
    ghost var first := Resume(Regs(0, 0, 0, 0, 0, 0), trampoline, base + STACK_SIZE - 8);
    InitialFrame(out, frameTop, frame);
    StackAligned(base);
    forall k: nat | k < 6
      ensures sp + 8 * k in out && out[sp + 8 * k] == 0
    {
      assert WordAddr(frameTop, 6 - k) == sp + 8 * k;
    }
    hide Filled;
    assert HasFrame(out, sp, first);
    forall c | HasFrame(out, sp, c)
      ensures c == first
    {
      FrameUnique(out, sp, c, first);
    }
  }

  lemma StackAligned(base: nat)
    requires base % 16 == 0
    ensures (base + STACK_SIZE - 64) % 8 == 0 && (base + STACK_SIZE - 8) % 16 == 8
  {
    var q := base / 16;
    assert base == 16 * q;
    assert (16 * (q + 4095) + 8) % 16 == 8 && (8 * (2 * q + 8184)) % 8 == 0;
  }

  method WriteWord(mem: Words, ghost start: Words, base: nat, frameTop: nat, frame: seq<nat>, i: nat)
    returns (out: Words)
    requires i < |frame| == 7 && frameTop == base + STACK_SIZE - 16
    requires Filled(mem, frameTop, frame, i) && Outside(start, mem, base)
    ensures Filled(out, frameTop, frame, i + 1) && Outside(start, out, base)
  {
    out := mem[WordAddr(frameTop, i) := frame[i]];
    forall a: nat | !(base <= a < base + STACK_SIZE)
      ensures Keeps(start, out, a)
    {
      assert Keeps(start, mem, a);
    }
  }

  lemma InitialFrame(mem: Words, top: nat, frame: seq<nat>)
    requires |frame| == 7 && top >= 48 && Filled(mem, top, frame, 7)
    ensures HasFrame(mem, top - 48, Resume(Regs(frame[1], frame[2], frame[3], frame[4], frame[5], frame[6]), frame[0],
                                           top + 8))
  {
    assert mem[WordAddr(top, 0)] == frame[0] && mem[WordAddr(top, 1)] == frame[1] && mem[WordAddr(top, 2)] == frame[2];
    assert mem[WordAddr(top, 3)] == frame[3] && mem[WordAddr(top, 4)] == frame[4] && mem[WordAddr(top, 5)] == frame[5];
    assert mem[WordAddr(top, 6)] == frame[6];
  }
}
