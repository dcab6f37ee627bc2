/** The shell program: a fixed line buffer and a ring of eight stored lines, updated byte by byte. */
module ShellCode {
  import opened Basics
  import opened Shell

  /** Slot `slot` of the ring holds `line`. */
  predicate StoredAt(lines: seq<byte>, lens: seq<byte>, slot: nat, line: seq<byte>) {
    && |lines| == HISTORY_CAPACITY * LINE_BUF_SIZE && |lens| == HISTORY_CAPACITY && slot < HISTORY_CAPACITY
    && 0 < |line| <= LINE_BUF_SIZE && lens[slot] as int == |line|
    && lines[slot * LINE_BUF_SIZE..slot * LINE_BUF_SIZE + |line|] == line
  }

  /** The slot of the line submitted `j` lines before the next one. */
  function SlotOf(history: seq<seq<byte>>, j: nat): (r: nat)
    ensures r < HISTORY_CAPACITY
  {
    (|history| - j) % HISTORY_CAPACITY
  }

  /** The ring holds the last eight lines of `history`. */
  ghost predicate RingOk(lines: seq<byte>, lens: seq<byte>, history: seq<seq<byte>>) {
    forall j: nat :: 1 <= j <= Recallable(history) ==> StoredAt(lines, lens, SlotOf(history, j), history[|history| - j])
  }

  lemma SlotsDiffer(history: seq<seq<byte>>, line: seq<byte>, j: nat)
    requires 2 <= j <= HISTORY_CAPACITY && j <= |history| + 1
    ensures SlotOf(history + [line], j) == SlotOf(history, j - 1) != SlotOf(history + [line], 1)
    ensures SlotOf(history + [line], 1) == |history| % HISTORY_CAPACITY
  {
  }

  /** Overwriting the oldest slot keeps the ring in step with the history. */
  lemma RingPushed(lines: seq<byte>, lens: seq<byte>, lines': seq<byte>, lens': seq<byte>, history: seq<seq<byte>>,
                   line: seq<byte>)
    requires RingOk(lines, lens, history) && |lines| == |lines'| == HISTORY_CAPACITY * LINE_BUF_SIZE
    requires |lens| == HISTORY_CAPACITY
    requires var s := |history| % HISTORY_CAPACITY;
             && 0 < |line| <= LINE_BUF_SIZE && lens' == lens[s := |line| as byte]
             && lines'[s * LINE_BUF_SIZE..s * LINE_BUF_SIZE + |line|] == line
             && (forall i :: 0 <= i < |lines| && !(s * LINE_BUF_SIZE <= i < s * LINE_BUF_SIZE + LINE_BUF_SIZE) ==>
                 lines'[i] == lines[i])
    ensures RingOk(lines', lens', history + [line])
  {
    var h := history + [line];
    forall j: nat | 1 <= j <= Recallable(h)
      ensures StoredAt(lines', lens', SlotOf(h, j), h[|h| - j])
    {
      if j >= 2 {
        SlotsDiffer(history, line, j);
        var slot, stored := SlotOf(h, j), history[|history| - (j - 1)];
        assert StoredAt(lines, lens, slot, stored);
        SlotUntouched(lines, lines', slot, |history| % HISTORY_CAPACITY, |stored|);
      }
    }
  }

  lemma SlotUntouched(lines: seq<byte>, lines': seq<byte>, slot: nat, s: nat, n: nat)
    requires slot < HISTORY_CAPACITY && s < HISTORY_CAPACITY && slot != s && n <= LINE_BUF_SIZE
    requires |lines| == |lines'| == HISTORY_CAPACITY * LINE_BUF_SIZE
    requires forall i :: 0 <= i < |lines| && !(s * LINE_BUF_SIZE <= i < s * LINE_BUF_SIZE + LINE_BUF_SIZE) ==>
             lines'[i] == lines[i]
    ensures lines'[slot * LINE_BUF_SIZE..slot * LINE_BUF_SIZE + n]
            == lines[slot * LINE_BUF_SIZE..slot * LINE_BUF_SIZE + n]
  {
    var from := slot * LINE_BUF_SIZE;
    forall i | from <= i < from + n
      ensures lines'[i] == lines[i]
    {
    }
  }

  class ShellProgram {
    const lineBuf: array<byte>
    const lines: array<byte>
    const lens: array<byte>
    var len: nat
    var browse: nat
    var count: nat
    var next: nat
    var mode: Mode
    /** The SYS_SPAWN calls made so far. */
    var started: seq<Command>
    /** Every line submitted so far. */
    ghost var history: seq<seq<byte>>

    ghost predicate Valid()
      reads this, lineBuf, lines, lens
    {
      && lineBuf.Length == LINE_BUF_SIZE && lines.Length == HISTORY_CAPACITY * LINE_BUF_SIZE
           && lens.Length == HISTORY_CAPACITY
      && lineBuf != lines && lineBuf != lens && lines != lens
      && len <= LINE_BUF_SIZE
      && browse <= count == Recallable(history) && next == |history| % HISTORY_CAPACITY
      && RingOk(lines[..], lens[..], history)
    }

    ghost function View(): Console
      requires Valid()
      reads this, lineBuf, lines, lens
    {
      Console(mode, Editor(lineBuf[..len], browse, history, started))
    }

    constructor ()
      ensures Valid() && View() == Console(Normal, BLANK)
      ensures fresh(lineBuf) && fresh(lines) && fresh(lens)
    {
      lineBuf := new byte[LINE_BUF_SIZE](_ => 0);
      lines := new byte[HISTORY_CAPACITY * LINE_BUF_SIZE](_ => 0);
      lens := new byte[HISTORY_CAPACITY](_ => 0);
      len, browse, count, next := 0, 0, 0, 0;
      mode, started, history := Normal, [], [];
    }

    /** `history_push`. */
    method HistoryPush()
      requires Valid() && len > 0
      modifies this`next, this`count, this`history, lines, lens
      ensures Valid()
      ensures history == old(history) + [lineBuf[..len]]
    {
      ghost var line, ring, sizes, h := lineBuf[..len], lines[..], lens[..], history;
      CopyToSlot(next);
      hide RingOk;
      lens[next] := len as byte;
      history := history + [line];
      assert lens[..] == sizes[next := len as byte];
      RingPushed(ring, sizes, lines[..], lens[..], h, line);
      next := (next + 1) % HISTORY_CAPACITY;
      if count < HISTORY_CAPACITY {
        count := count + 1;
      }
    }

    method CopyToSlot(slot: nat)
      requires lineBuf.Length == LINE_BUF_SIZE && lines.Length == HISTORY_CAPACITY * LINE_BUF_SIZE && lineBuf != lines
      requires len <= LINE_BUF_SIZE && slot < HISTORY_CAPACITY
      modifies lines
      ensures lines[..][slot * LINE_BUF_SIZE..slot * LINE_BUF_SIZE + len] == lineBuf[..len]
      ensures forall i :: 0 <= i < lines.Length && !(slot * LINE_BUF_SIZE <= i < (slot + 1) * LINE_BUF_SIZE) ==>
                lines[..][i] == old(lines[..])[i]
    {
      var base := slot * LINE_BUF_SIZE;
      var i := 0;
      while i < len
        invariant i <= len
        invariant forall j :: 0 <= j < i ==> lines[base + j] == lineBuf[j]
        invariant forall j :: 0 <= j < lines.Length && !(base <= j < base + LINE_BUF_SIZE) ==> lines[j] == old(lines[j])
      {
        lines[base + i] := lineBuf[i];
        i := i + 1;
      }
    }

    /** `history_load_into_line`, for the line `browse` entries back. */
    method HistoryLoad()
      requires Valid() && 1 <= browse <= count
      modifies this`len, lineBuf
      ensures Valid() && lineBuf[..len] == history[|history| - browse]
    {
      ghost var line := history[|history| - browse];
      var slot := (next - browse) % HISTORY_CAPACITY;
      assert slot == SlotOf(history, browse);
      assert StoredAt(lines[..], lens[..], slot, line);
      hide RingOk, SlotOf;
      len := lens[slot] as int;
      CopyFromSlot(slot);
    }

    method CopyFromSlot(slot: nat)
      requires lineBuf.Length == LINE_BUF_SIZE && lines.Length == HISTORY_CAPACITY * LINE_BUF_SIZE && lineBuf != lines
      requires len <= LINE_BUF_SIZE && slot < HISTORY_CAPACITY
      modifies lineBuf
      ensures lineBuf[..len] == lines[..][slot * LINE_BUF_SIZE..slot * LINE_BUF_SIZE + len]
    {
      var base := slot * LINE_BUF_SIZE;
      var i := 0;
      while i < len
        invariant i <= len
        invariant forall j :: 0 <= j < i ==> lineBuf[j] == lines[base + j]
      {
        lineBuf[i] := lines[base + i];
        i := i + 1;
      }
    }

    /** The scan for the first space. */
    method FindSpace() returns (n: nat)
      requires lineBuf.Length == LINE_BUF_SIZE && len <= LINE_BUF_SIZE
      ensures n == FirstSpace(lineBuf[..len])
    {
      n := 0;
      while n < len && lineBuf[n] != SPACE
        invariant n <= len && FirstSpace(lineBuf[..len]) == n + FirstSpace(lineBuf[n..len])
      {
        assert lineBuf[n..len][1..] == lineBuf[n + 1..len];
        n := n + 1;
      }
    }

    /** `handle_newline` up to the next prompt. */
    method Submit()
      requires Valid() && mode == Normal
      modifies this, lines, lens
      ensures Valid() && View() == old(View()).(editor := Submitted(old(View()).editor))
    {
      if len > 0 {
        ghost var line := lineBuf[..len];
        HistoryPush();
        hide RingOk;
        var n := FindSpace();
        if n == len {
          started := started + [Command(lineBuf[..len], [])];
        } else {
          started := started + [Command(lineBuf[..n], lineBuf[n + 1..len])];
          assert line[..n] == lineBuf[..n] && line[n + 1..] == lineBuf[n + 1..len];
        }
      }
      len, browse := 0, 0;
    }

    method OlderLine()
      requires Valid()
      modifies this`browse, this`len, lineBuf
      ensures Valid() && View() == old(View()).(editor := Older(old(View()).editor))
    {
      if count == 0 || browse >= count {
        return;
      }
      browse := browse + 1;
      hide RingOk;
      HistoryLoad();
    }

    method NewerLine()
      requires Valid()
      modifies this`browse, this`len, lineBuf
      ensures Valid() && View() == old(View()).(editor := Newer(old(View()).editor))
    {
      hide RingOk;
      if browse == 0 {
        return;
      }
      browse := browse - 1;
      if browse == 0 {
        len := 0;
        return;
      }
      HistoryLoad();
    }

    method TypeByte(b: byte)
      requires Valid() && mode == Normal
      modifies this, lineBuf, lines, lens
      ensures Valid() && View() == old(View()).(editor := Typing(old(View()).editor, b))
    {
      hide RingOk, Submitted;
      if b == BACKSPACE {
        if len > 0 {
          len := len - 1;
        }
      } else if b == LF || b == CR {
        Submit();
      } else if len < LINE_BUF_SIZE {
        lineBuf[len] := b;
        len := len + 1;
      }
    }

    /** The program's reaction to one byte, whatever it was waiting for. */
    method Feed(b: byte)
      requires Valid()
      modifies this, lineBuf, lines, lens
      ensures Valid() && View() == Fed(old(View()), b)
    {
      hide RingOk, Older, Newer, Typing;
      match mode
      case Normal =>
        if b == ESC {
          mode := AfterEsc;
        } else {
          TypeByte(b);
        }
      case AfterEsc =>
        mode := if b == 0x5B then AfterBracket else Normal;
      case AfterBracket =>
        mode := Normal;
        if b == 0x41 {
          OlderLine();
        } else if b == 0x42 {
          NewerLine();
        } else if b != 0x43 && b != 0x44 && b != TILDE {
          mode := Draining;
        }
      case Draining =>
        if b == TILDE {
          mode := Normal;
        }
    }

    /** Reading a whole stream of bytes. */
    method Run(bytes: seq<byte>)
      requires Valid()
      modifies this, lineBuf, lines, lens
      ensures Valid() && View() == FedAll(old(View()), bytes)
    {
      hide RingOk, Fed;
      var i := 0;
      assert bytes[..0] == [];
      while i < |bytes|
        invariant i <= |bytes| && Valid() && View() == FedAll(old(View()), bytes[..i])
      {
        assert bytes[..i + 1][..i] == bytes[..i];
        Feed(bytes[i]);
        i := i + 1;
      }
      assert bytes[..i] == bytes;
    }
  }

  /** The shell from its start: for all keys, the program that read the bytes sent for them is in every part
      what the shell on keys is, line, browse position, stored lines, programs started and what it waits
      for; without a lone Escape that is the abstract editor, waiting for the next key. Its lines always
      fit the buffer and hold no escape byte. */
  method TypeKeys(keys: seq<Key>) returns (shell: ShellProgram)
    ensures fresh(shell) && fresh(shell.lineBuf) && fresh(shell.lines) && fresh(shell.lens) && shell.Valid()
    ensures shell.View() == PressedAllIn(Console(Normal, BLANK), keys) && Tidy(shell.View().editor)
    ensures NoLoneEscape(keys) ==> shell.View() == Console(Normal, PressedAll(BLANK, keys))
  {
    shell := new ShellProgram();
    AllKeysArrive(Console(Normal, BLANK), keys);
    FedAllTidy(Console(Normal, BLANK), SentAll(keys));
    if NoLoneEscape(keys) {
      KeysArrive(BLANK, keys);
    }
    hide PressedAll, PressedAllIn, FedAll, RingOk;
    shell.Run(SentAll(keys));
  }
}
