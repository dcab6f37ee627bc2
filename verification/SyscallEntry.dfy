/** The system-call gate: every register but RAX comes back unchanged, and the dispatcher receives the
    caller's arguments on an aligned stack. */
module SyscallEntry {
  import opened Basics
  import opened Context

  /** The general-purpose registers other than RSP. */
  datatype Gpr = Gpr(rax: nat, rbx: nat, rcx: nat, rdx: nat, rsi: nat, rdi: nat, rbp: nat, r8: nat,
                     r9: nat, r10: nat, r11: nat, r12: nat, r13: nat, r14: nat, r15: nat)

  /** The words upwards from `sp` are `words`. */
  ghost predicate OnStack(mem: Words, sp: nat, words: seq<nat>) {
    forall i: nat :: i < |words| ==> StackWord(mem, sp, i) == Some(words[i])
  }

  function StackWord(mem: Words, sp: nat, i: nat): Option<nat> {
    if sp + 8 * i in mem then Some(mem[sp + 8 * i]) else None
  }

  /** The stack pointer and memory of the processor inside the gate. */
  class GateStack {
    var sp: nat
    var mem: Words

    constructor (stackPointer: nat, memory: Words)
      ensures sp == stackPointer && mem == memory
    {
      sp, mem := stackPointer, memory;
    }

    method Push(v: nat, ghost words: seq<nat>)
      requires sp >= 8 && OnStack(mem, sp, words)
      modifies this
      ensures sp == old(sp) - 8 && OnStack(mem, sp, [v] + words)
    {
      ghost var before, top := mem, sp;
      sp := sp - 8;
      mem := mem[sp := v];
      forall i: nat | i < |[v] + words|
        ensures StackWord(mem, sp, i) == Some(([v] + words)[i])
      {
        if i > 0 {
          assert StackWord(before, top, i - 1) == Some(words[i - 1]);
        }
      }
    }

    method Pop(ghost words: seq<nat>) returns (v: nat)
      requires words != [] && OnStack(mem, sp, words)
      modifies this`sp
      ensures sp == old(sp) + 8 && v == words[0] && OnStack(mem, sp, words[1..])
    {
      assert StackWord(mem, sp, 0) == Some(words[0]);
      v := mem[sp];
      ghost var top := sp;
      sp := sp + 8;
      forall i: nat | i < |words[1..]|
        ensures StackWord(mem, sp, i) == Some(words[1..][i])
      {
        assert StackWord(mem, top, i + 1) == Some(words[i + 1]);
      }
    }

    method PushFive(a: nat, b: nat, c: nat, d: nat, e: nat, ghost w: seq<nat>)
      requires sp >= 40 && OnStack(mem, sp, w)
      modifies this
      ensures sp == old(sp) - 40 && OnStack(mem, sp, [e, d, c, b, a] + w)
    {
      hide OnStack;
      Push(a, w);
      Push(b, [a] + w);
      Push(c, [b] + ([a] + w));
      Push(d, [c] + ([b] + ([a] + w)));
      Push(e, [d] + ([c] + ([b] + ([a] + w))));
      assert [e] + ([d] + ([c] + ([b] + ([a] + w)))) == [e, d, c, b, a] + w;
    }

    method PopFive(ghost w: seq<nat>) returns (a: nat, b: nat, c: nat, d: nat, e: nat)
      requires |w| >= 5 && OnStack(mem, sp, w)
      modifies this`sp
      ensures sp == old(sp) + 40 && OnStack(mem, sp, w[5..])
      ensures a == w[0] && b == w[1] && c == w[2] && d == w[3] && e == w[4]
    {
      hide OnStack;
      a := Pop(w);
      b := Pop(w[1..]);
      assert w[1..][1..] == w[2..];
      c := Pop(w[2..]);
      assert w[2..][1..] == w[3..];
      d := Pop(w[3..]);
      assert w[3..][1..] == w[4..];
      e := Pop(w[4..]);
      assert w[4..][1..] == w[5..];
    }

    /** Fifteen pushes; RAX ends up furthest away. */
    method SaveAll(g: Gpr)
      requires sp >= 120
      modifies this
      ensures sp == old(sp) - 120 && OnStack(mem, sp, SavedWords(g))
    {
      assert OnStack(mem, sp, []);
      hide OnStack;
      PushFive(g.rax, g.rbx, g.rcx, g.rdx, g.rsi, []);
      ghost var w := [g.rsi, g.rdx, g.rcx, g.rbx, g.rax];
      assert [g.rsi, g.rdx, g.rcx, g.rbx, g.rax] + [] == w;
      PushFive(g.rdi, g.rbp, g.r8, g.r9, g.r10, w);
      PushFive(g.r11, g.r12, g.r13, g.r14, g.r15, [g.r10, g.r9, g.r8, g.rbp, g.rdi] + w);
      assert [g.r15, g.r14, g.r13, g.r12, g.r11] + ([g.r10, g.r9, g.r8, g.rbp, g.rdi] + w) == SavedWords(g);
    }

    method RestoreAll(ghost w: seq<nat>) returns (g: Gpr)
      requires |w| == 15 && OnStack(mem, sp, w)
      modifies this`sp
      ensures sp == old(sp) + 120
      ensures g == Gpr(w[14], w[13], w[12], w[11], w[10], w[9], w[8], w[7], w[6], w[5], w[4], w[3], w[2], w[1], w[0])
    {
      hide OnStack;
      var r15, r14, r13, r12, r11 := PopFive(w);
      var r10, r9, r8, rbp, rdi := PopFive(w[5..]);
      assert w[5..][5..] == w[10..];
      var rsi, rdx, rcx, rbx, rax := PopFive(w[10..]);
      g := Gpr(rax, rbx, rcx, rdx, rsi, rdi, rbp, r8, r9, r10, r11, r12, r13, r14, r15);
    }
  }

  /** The saved registers, from the lowest address up. */
  function SavedWords(g: Gpr): seq<nat> {
    [g.r15, g.r14, g.r13, g.r12, g.r11, g.r10, g.r9, g.r8, g.rbp, g.rdi, g.rsi, g.rdx, g.rcx, g.rbx, g.rax]
  }

  /** `and rsp, -16`. */
  function AlignDown(sp: nat): (r: nat)
    ensures r <= sp < r + 16 && r % 16 == 0
  {
    sp - sp % 16
  }

  /** What the dispatcher may do: leave anything below the stack pointer it was given, and return a value.
      It keeps R15, where the gate saved RSP, and everything at or above that. */
  ghost predicate Dispatched(mem: Words, mem': Words, sp: nat) {
    forall i: nat :: i < 15 ==> StackWord(mem', sp, i) == StackWord(mem, sp, i)
  }

  method Save(g: Gpr, sp: nat, mem: Words) returns (saved: Words, args: seq<nat>, callSp: nat)
    requires sp >= 136
    ensures OnStack(saved, sp - 120, SavedWords(g))
    ensures args == [g.rax, g.rdi, g.rsi, g.rdx, g.rcx]
    ensures callSp % 16 == 0 && sp - 136 < callSp <= sp - 120
  {
    var stack := new GateStack(sp, mem);
    stack.SaveAll(g);
    saved := stack.mem;
    ghost var low, w := stack.sp, SavedWords(g);
    assert StackWord(saved, low, 14) == Some(w[14]) && StackWord(saved, low, 9) == Some(w[9])
           && StackWord(saved, low, 10) == Some(w[10]);
    assert StackWord(saved, low, 11) == Some(w[11]) && StackWord(saved, low, 12) == Some(w[12]);
    args := [saved[stack.sp + 112], saved[stack.sp + 72], saved[stack.sp + 80], saved[stack.sp + 88],
             saved[stack.sp + 96]];
    callSp := AlignDown(stack.sp);
  }

  /** The second half of the gate, with RSP restored from R15: whatever the dispatcher did below the saved
      registers, the caller gets every register back, with the reply in RAX. */
  method Restore(g: Gpr, sp: nat, saved: Words, mem: Words, reply: nat) returns (out: Gpr, outSp: nat)
    requires sp >= 120 && OnStack(saved, sp - 120, SavedWords(g)) && Dispatched(saved, mem, sp - 120)
    ensures out == g.(rax := reply) && outSp == sp
  {
    var low := sp - 120;
    var replied := mem[low + 112 := reply];
    ghost var w := SavedWords(g)[14 := reply];
    forall i: nat | i < |w|
      ensures StackWord(replied, low, i) == Some(w[i])
    {
      if i < 14 {
        assert StackWord(saved, low, i) == Some(SavedWords(g)[i]);
        assert StackWord(mem, low, i) == StackWord(saved, low, i);
      }
    }
    var stack := new GateStack(low, replied);
    out := stack.RestoreAll(w);
    outSp := stack.sp;
  }
}
