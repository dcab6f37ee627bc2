/** Keys, the bytes they are sent as, and the line editor that reads them back (src/task/keyboard.rs and
    disk/shell.s). */
module Shell {
  import opened Basics

  const LINE_BUF_SIZE: nat := 64
  const HISTORY_CAPACITY: nat := 8
  const ESC: byte := 0x1B
  const BACKSPACE: byte := 0x08
  const LF: byte := 0x0A
  const CR: byte := 0x0D
  const SPACE: byte := 0x20
  const TILDE: byte := 0x7E

  datatype KeyCode =
    | ArrowUp | ArrowDown | ArrowRight | ArrowLeft | Home | Insert | End | PageUp | PageDown
    | F1 | F2 | F3 | F4 | F5 | F6 | F7 | F8 | F9 | F10 | F11 | F12 | Unmapped

  /** `ansi_escape_sequence`: ESC [ and a letter, or ESC [ digits ~. */
  function AnsiEscape(key: KeyCode): Option<seq<byte>> {
    match key
    case ArrowUp => Some([ESC, 0x5B, 0x41])
    case ArrowDown => Some([ESC, 0x5B, 0x42])
    case ArrowRight => Some([ESC, 0x5B, 0x43])
    case ArrowLeft => Some([ESC, 0x5B, 0x44])
    case Home => Some([ESC, 0x5B, 0x31, TILDE])
    case Insert => Some([ESC, 0x5B, 0x32, TILDE])
    case End => Some([ESC, 0x5B, 0x34, TILDE])
    case PageUp => Some([ESC, 0x5B, 0x35, TILDE])
    case PageDown => Some([ESC, 0x5B, 0x36, TILDE])
    case F1 => Some([ESC, 0x5B, 0x31, 0x31, TILDE])
    case F2 => Some([ESC, 0x5B, 0x31, 0x32, TILDE])
    case F3 => Some([ESC, 0x5B, 0x31, 0x33, TILDE])
    case F4 => Some([ESC, 0x5B, 0x31, 0x34, TILDE])
    case F5 => Some([ESC, 0x5B, 0x31, 0x35, TILDE])
    case F6 => Some([ESC, 0x5B, 0x31, 0x37, TILDE])
    case F7 => Some([ESC, 0x5B, 0x31, 0x38, TILDE])
    case F8 => Some([ESC, 0x5B, 0x31, 0x39, TILDE])
    case F9 => Some([ESC, 0x5B, 0x32, 0x30, TILDE])
    case F10 => Some([ESC, 0x5B, 0x32, 0x31, TILDE])
    case F11 => Some([ESC, 0x5B, 0x32, 0x33, TILDE])
    case F12 => Some([ESC, 0x5B, 0x32, 0x34, TILDE])
    case Unmapped => None
  }

  /** A decoded key: a character, or a key without one. */
  datatype Key = Typed(c: byte) | Raw(code: KeyCode)

  function Sent(key: Key): seq<byte> {
    match key
    case Typed(c) => [c]
    case Raw(code) => match AnsiEscape(code) case None => [] case Some(s) => s
  }

  predicate NoLoneEscape(keys: seq<Key>) {
    forall i :: 0 <= i < |keys| ==> keys[i] != Typed(ESC)
  }

  function SentAll(keys: seq<Key>): seq<byte> {
    if keys == [] then [] else SentAll(keys[..|keys| - 1]) + Sent(keys[|keys| - 1])
  }

  // ---------------------------------------------------------------- the editor on keys

  datatype Command = Command(path: seq<byte>, args: seq<byte>)

  /** The line being edited, how far back history is being browsed, every line submitted so far, and the
      programs started. */
  datatype Editor = Editor(line: seq<byte>, browse: nat, history: seq<seq<byte>>, started: seq<Command>)

  /** The editor when the shell starts. */
  const BLANK: Editor := Editor([], 0, [], [])

  /** The position of the first space, or the length. */
  function FirstSpace(line: seq<byte>): (r: nat)
    ensures r <= |line| && SPACE !in line[..r] && (r < |line| ==> line[r] == SPACE)
  {
    if line == [] || line[0] == SPACE then 0 else 1 + FirstSpace(line[1..])
  }

  /** The path is everything before the first space, the arguments everything after it. */
  function Split(line: seq<byte>): (c: Command) {
    var n := FirstSpace(line);
    if n == |line| then Command(line, []) else Command(line[..n], line[n + 1..])
  }

  function Submitted(e: Editor): Editor {
    if e.line == [] then e.(browse := 0)
    else Editor([], 0, e.history + [e.line], e.started + [Split(e.line)])
  }

  function Typing(e: Editor, c: byte): Editor {
    if c == BACKSPACE then (if e.line == [] then e else e.(line := e.line[..|e.line| - 1]))
    else if c == LF || c == CR then Submitted(e)
    else if |e.line| >= LINE_BUF_SIZE then e
    else e.(line := e.line + [c])
  }

  /** How many lines can be recalled. */
  function Recallable(history: seq<seq<byte>>): nat {
    if |history| < HISTORY_CAPACITY then |history| else HISTORY_CAPACITY
  }

  function Older(e: Editor): Editor {
    if e.browse >= Recallable(e.history) then e
    else e.(browse := e.browse + 1, line := e.history[|e.history| - e.browse - 1])
  }

  function Newer(e: Editor): Editor {
    if e.browse == 0 then e
    else if e.browse == 1 || e.browse > |e.history| then e.(browse := e.browse - 1, line := [])
    else e.(browse := e.browse - 1, line := e.history[|e.history| - e.browse + 1])
  }

  /** The abstract editor: one key at a time, with no bytes in sight. */
  function Pressed(e: Editor, key: Key): Editor {
    match key
    case Typed(c) => Typing(e, c)
    case Raw(ArrowUp) => Older(e)
    case Raw(ArrowDown) => Newer(e)
    case Raw(_) => e
  }

  function PressedAll(e: Editor, keys: seq<Key>): Editor {
    if keys == [] then e else Pressed(PressedAll(e, keys[..|keys| - 1]), keys[|keys| - 1])
  }

  // ---------------------------------------------------------------- the shell on bytes

  /** Where the program waits for its next byte: at `read_char`, after ESC, after ESC [, or in `drain_csi`. */
  datatype Mode = Normal | AfterEsc | AfterBracket | Draining

  datatype Console = Console(mode: Mode, editor: Editor)

  function Fed(c: Console, b: byte): Console {
    match c.mode
    case Normal => if b == ESC then c.(mode := AfterEsc) else c.(editor := Typing(c.editor, b))
    case AfterEsc => c.(mode := if b == 0x5B then AfterBracket else Normal)
    case AfterBracket =>
      if b == 0x41 then Console(Normal, Older(c.editor))
      else if b == 0x42 then Console(Normal, Newer(c.editor))
      else if b == 0x43 || b == 0x44 || b == TILDE then c.(mode := Normal)
      else c.(mode := Draining)
    case Draining => if b == TILDE then c.(mode := Normal) else c
  }

  function FedAll(c: Console, bytes: seq<byte>): Console {
    if bytes == [] then c else Fed(FedAll(c, bytes[..|bytes| - 1]), bytes[|bytes| - 1])
  }

  lemma {:induction false} FedConcat(c: Console, a: seq<byte>, b: seq<byte>)
    ensures FedAll(c, a + b) == FedAll(FedAll(c, a), b)
  {
    if b == [] {
      assert a + b == a;
    } else {
      var last := |b| - 1;
      FedConcat(c, a, b[..last]);
      assert (a + b)[..|a + b| - 1] == a + b[..last];
    }
  }

  lemma {:induction false} FedOne(c: Console, x: byte)
    ensures FedAll(c, [x]) == Fed(c, x)
  {
    assert [x][..0] == [];
  }

  lemma {:induction false} FedTwo(c: Console, x: byte, y: byte)
    ensures FedAll(c, [x, y]) == Fed(Fed(c, x), y)
  {
    FedOne(c, x);
    assert [x, y][..1] == [x];
  }

  lemma {:induction false} FedThree(c: Console, x: byte, y: byte, z: byte)
    ensures FedAll(c, [x, y, z]) == Fed(Fed(Fed(c, x), y), z)
  {
    FedTwo(c, x, y);
    assert [x, y, z][..2] == [x, y];
  }

  lemma {:induction false} FedFour(c: Console, x: byte, y: byte, z: byte, w: byte)
    ensures FedAll(c, [x, y, z, w]) == Fed(Fed(Fed(Fed(c, x), y), z), w)
  {
    FedThree(c, x, y, z);
    assert [x, y, z, w][..3] == [x, y, z];
  }

  lemma {:induction false} FedFive(c: Console, x: byte, y: byte, z: byte, w: byte, v: byte)
    ensures FedAll(c, [x, y, z, w, v]) == Fed(Fed(Fed(Fed(Fed(c, x), y), z), w), v)
  {
    FedFour(c, x, y, z, w);
    assert [x, y, z, w, v][..4] == [x, y, z, w];
  }

  /** Arrows are recognised by their last byte. */
  lemma ArrowArrives(e: Editor, x: byte)
    requires 0x41 <= x <= 0x44
    ensures FedAll(Console(Normal, e), [ESC, 0x5B, x])
         == Console(Normal, if x == 0x41 then Older(e) else if x == 0x42 then Newer(e) else e)
  {
    FedThree(Console(Normal, e), ESC, 0x5B, x);
    hide FedAll, Older, Newer, Typing;
  }

  /** Numbered keys are drained. */
  lemma {:induction false} NumberDrained(e: Editor, d: byte, f: byte)
    requires 0x30 <= d <= 0x39 && 0x30 <= f <= 0x39
    ensures FedAll(Console(Normal, e), [ESC, 0x5B, d, TILDE]) == Console(Normal, e)
    ensures FedAll(Console(Normal, e), [ESC, 0x5B, d, f, TILDE]) == Console(Normal, e)
  {
    FedFour(Console(Normal, e), ESC, 0x5B, d, TILDE);
    FedFive(Console(Normal, e), ESC, 0x5B, d, f, TILDE);
    hide FedAll, Older, Newer, Typing;
  }

  /** What arrives for one key has the effect of that key, and leaves the shell waiting for the next one. */
  lemma {:induction false} OneKey(e: Editor, key: Key)
    requires key != Typed(ESC)
    ensures FedAll(Console(Normal, e), Sent(key)) == Console(Normal, Pressed(e, key))
  {
    if key.Typed? {
      FedOne(Console(Normal, e), key.c);
    } else {
      RawKey(e, key.code);
    }
  }

  lemma {:induction false} RawKey(e: Editor, code: KeyCode)
    ensures FedAll(Console(Normal, e), Sent(Raw(code))) == Console(Normal, Pressed(e, Raw(code)))
  {
    var s := Sent(Raw(code));
    if code.Unmapped? {
      assert s == [];
    } else if |s| == 3 {
      hide FedAll, Fed, Older, Newer;
      ArrowArrives(e, s[2]);
      assert s == [ESC, 0x5B, s[2]];
    } else if |s| == 4 {
      hide FedAll, Fed, Older, Newer;
      NumberDrained(e, s[2], 0x30);
      assert s == [ESC, 0x5B, s[2], TILDE];
    } else {
      hide FedAll, Fed, Older, Newer;
      NumberDrained(e, s[2], s[3]);
      assert s == [ESC, 0x5B, s[2], s[3], TILDE];
    }
  }

  /** For every sequence of keys without a lone Escape, the shell that reads the bytes sent for them ends
      with the line, history and programs of the abstract editor. */
  lemma {:induction false} KeysArrive(e: Editor, keys: seq<Key>)
    requires NoLoneEscape(keys)
    ensures FedAll(Console(Normal, e), SentAll(keys)) == Console(Normal, PressedAll(e, keys))
  {
    if keys != [] {
      var rest, last := keys[..|keys| - 1], keys[|keys| - 1];
      KeysArrive(e, rest);
      FedConcat(Console(Normal, e), SentAll(rest), Sent(last));
      OneKey(PressedAll(e, rest), last);
      hide FedAll, Fed, Pressed, Sent;
    }
  }

  // ---------------------------------------------------------------- with lone Escapes

  /** The line after typing plain text: what does not fit is dropped. */
  function Extended(line: seq<byte>, text: seq<byte>): seq<byte> {
    if |line| >= LINE_BUF_SIZE then line
    else if |line| + |text| <= LINE_BUF_SIZE then line + text
    else line + text[..LINE_BUF_SIZE - |line|]
  }

  /** Keys sent as ESC [ digits ~. */
  predicate Numbered(code: KeyCode) {
    !code.Unmapped? && !code.ArrowUp? && !code.ArrowDown? && !code.ArrowRight? && !code.ArrowLeft?
  }

  /** The shell on keys, whatever it is waiting for. A lone Escape makes it wait for a bracket: a typed bracket
      opens a sequence, any other typed byte is swallowed, and a key without a character loses its own ESC
      to the wait, so that the rest of its sequence is typed into the line. */
  function PressedIn(c: Console, key: Key): Console {
    match (c.mode, key)
    case (Normal, _) =>
      if key == Typed(ESC) then c.(mode := AfterEsc) else c.(editor := Pressed(c.editor, key))
    case (_, Raw(Unmapped)) => c
    case (AfterEsc, Typed(b)) => c.(mode := if b == 0x5B then AfterBracket else Normal)
    case (AfterEsc, Raw(_)) => Console(Normal, c.editor.(line := Extended(c.editor.line, Sent(key)[1..])))
    case (AfterBracket, Typed(b)) =>
      if b == 0x41 then Console(Normal, Older(c.editor))
      else if b == 0x42 then Console(Normal, Newer(c.editor))
      else c.(mode := if b == 0x43 || b == 0x44 || b == TILDE then Normal else Draining)
    case (Draining, Typed(b)) => if b == TILDE then c.(mode := Normal) else c
    case (_, Raw(code)) => c.(mode := if Numbered(code) then Normal else Draining)
  }

  function PressedAllIn(c: Console, keys: seq<Key>): Console {
    if keys == [] then c else PressedIn(PressedAllIn(c, keys[..|keys| - 1]), keys[|keys| - 1])
  }

  lemma {:induction false} TextFed(e: Editor, text: seq<byte>)
    requires forall i :: 0 <= i < |text| ==> Plain(text[i])
    ensures FedAll(Console(Normal, e), text) == Console(Normal, e.(line := Extended(e.line, text)))
  {
    if text != [] {
      var last := |text| - 1;
      TextFed(e, text[..last]);
      assert text == text[..last] + [text[last]];
      ExtendedBy(e.line, text[..last], text[last]);
      PlainFed(e.(line := Extended(e.line, text[..last])), text[last]);
      hide Fed, Extended;
    } else {
      assert Extended(e.line, text) == e.line;
    }
  }

  lemma PlainFed(e: Editor, c: byte)
    requires Plain(c)
    ensures Fed(Console(Normal, e), c) == Console(Normal, e.(line := Extended(e.line, [c])))
  {
  }

  lemma ExtendedBy(line: seq<byte>, text: seq<byte>, c: byte)
    ensures Extended(line, text + [c]) == Extended(Extended(line, text), [c])
  {
    if |line| < LINE_BUF_SIZE && |line| + |text| < LINE_BUF_SIZE {
      assert line + (text + [c]) == line + text + [c];
    } else if |line| < LINE_BUF_SIZE {
      assert (text + [c])[..LINE_BUF_SIZE - |line|] == text[..LINE_BUF_SIZE - |line|];
    }
  }

  /** A key without a character, after a lone Escape. */
  lemma {:induction false} SequenceTyped(e: Editor, code: KeyCode)
    requires !code.Unmapped?
    ensures FedAll(Console(AfterEsc, e), Sent(Raw(code)))
         == Console(Normal, e.(line := Extended(e.line, Sent(Raw(code))[1..])))
  {
    var s := Sent(Raw(code));
    SequenceShape(code);
    hide Sent, Extended;
    assert s == [ESC] + s[1..];
    FedConcat(Console(AfterEsc, e), [ESC], s[1..]);
    FedOne(Console(AfterEsc, e), ESC);
    TextFed(e, s[1..]);
  }

  lemma SequenceShape(code: KeyCode)
    requires !code.Unmapped?
    ensures var s := Sent(Raw(code));
            && 3 <= |s| <= 5 && s[0] == ESC && (forall i :: 1 <= i < |s| ==> Plain(s[i]))
            && (Numbered(code) <==> s[|s| - 1] == TILDE) && (forall i :: 0 <= i < |s| - 1 ==> s[i] != TILDE)
  {
  }

  /** Bytes without a tilde are drained to the end. */
  lemma {:induction false} Drained(e: Editor, s: seq<byte>)
    requires TILDE !in s
    ensures FedAll(Console(Draining, e), s) == Console(Draining, e)
  {
    if s != [] {
      Drained(e, s[..|s| - 1]);
    }
  }

  /** A key without a character, while a sequence is being read. */
  lemma {:induction false} SequenceDrained(mode: Mode, e: Editor, code: KeyCode)
    requires !code.Unmapped? && (mode.AfterBracket? || mode.Draining?)
    ensures FedAll(Console(mode, e), Sent(Raw(code))) == Console(if Numbered(code) then Normal else Draining, e)
  {
    var s := Sent(Raw(code));
    SequenceShape(code);
    hide Sent, Numbered;
    var last := |s| - 1;
    assert s == [ESC] + s[1..last] + [s[last]];
    FedConcat(Console(mode, e), [ESC] + s[1..last], [s[last]]);
    FedConcat(Console(mode, e), [ESC], s[1..last]);
    FedOne(Console(mode, e), ESC);
    Drained(e, s[1..last]);
    FedOne(Console(Draining, e), s[last]);
  }

  lemma {:induction false} KeyIn(c: Console, key: Key)
    ensures FedAll(c, Sent(key)) == PressedIn(c, key)
  {
    if c.mode.Normal? && key != Typed(ESC) {
      OneKey(c.editor, key);
    } else if key.Typed? {
      FedOne(c, key.c);
    } else if key.code.Unmapped? {
      assert Sent(key) == [];
    } else if c.mode.AfterEsc? {
      SequenceTyped(c.editor, key.code);
    } else {
      SequenceDrained(c.mode, c.editor, key.code);
    }
  }

  /** For every sequence of keys, lone Escapes included, and whatever the shell was waiting for, the bytes sent
      for the keys have exactly the effect of the keys. */
  lemma {:induction false} AllKeysArrive(c: Console, keys: seq<Key>)
    ensures FedAll(c, SentAll(keys)) == PressedAllIn(c, keys)
  {
    if keys != [] {
      var rest, last := keys[..|keys| - 1], keys[|keys| - 1];
      AllKeysArrive(c, rest);
      FedConcat(c, SentAll(rest), Sent(last));
      KeyIn(PressedAllIn(c, rest), last);
      hide FedAll, Fed, PressedIn, Sent;
    }
  }

  /** Escape and then Up types "[A" into the line instead of recalling the previous one. */
  lemma {:induction false} EscapeSpoilsArrow(e: Editor)
    requires |e.line| + 2 <= LINE_BUF_SIZE
    ensures PressedAllIn(Console(Normal, e), [Typed(ESC), Raw(ArrowUp)])
         == Console(Normal, e.(line := e.line + [0x5B, 0x41]))
  {
    var keys := [Typed(ESC), Raw(ArrowUp)];
    assert keys[..1] == [Typed(ESC)] && [Typed(ESC)][..0] == [];
    assert PressedAllIn(Console(Normal, e), [Typed(ESC)]) == Console(AfterEsc, e);
    assert Sent(Raw(ArrowUp))[1..] == [0x5B, 0x41];
    assert PressedIn(Console(AfterEsc, e), Raw(ArrowUp)) == Console(Normal, e.(line := e.line + [0x5B, 0x41]));
  }

  // ---------------------------------------------------------------- what the editor guarantees

  /** Every line fits the buffer and holds no escape byte; browsing stays within the stored lines. */
  ghost predicate Tidy(e: Editor) {
    && |e.line| <= LINE_BUF_SIZE && ESC !in e.line
    && (forall i :: 0 <= i < |e.history| ==> 0 < |e.history[i]| <= LINE_BUF_SIZE && ESC !in e.history[i])
    && e.browse <= Recallable(e.history)
  }

  /** No byte can break this, whatever the shell is waiting for. */
  lemma FedTidy(c: Console, b: byte)
    requires Tidy(c.editor)
    ensures Tidy(Fed(c, b).editor)
  {
    if c.mode.Normal? && b != ESC {
      PressedTidy(c.editor, Typed(b));
    } else {
      PressedTidy(c.editor, Raw(ArrowUp));
      PressedTidy(c.editor, Raw(ArrowDown));
    }
  }

  lemma {:induction false} FedAllTidy(c: Console, bytes: seq<byte>)
    requires Tidy(c.editor)
    ensures Tidy(FedAll(c, bytes).editor)
  {
    if bytes != [] {
      FedAllTidy(c, bytes[..|bytes| - 1]);
      FedTidy(FedAll(c, bytes[..|bytes| - 1]), bytes[|bytes| - 1]);
      hide Tidy, Fed;
    }
  }

  lemma PressedTidy(e: Editor, key: Key)
    requires Tidy(e) && key != Typed(ESC)
    ensures Tidy(Pressed(e, key))
  {
    var n := Pressed(e, key);
    if key.Typed? && (key.c == LF || key.c == CR) {
      assert n.browse == 0;
    }
  }

  lemma {:induction false} PressedAllTidy(e: Editor, keys: seq<Key>)
    requires Tidy(e) && NoLoneEscape(keys)
    ensures Tidy(PressedAll(e, keys))
  {
    if keys != [] {
      PressedAllTidy(e, keys[..|keys| - 1]);
      PressedTidy(PressedAll(e, keys[..|keys| - 1]), keys[|keys| - 1]);
      hide Tidy, Pressed;
    }
  }

  /** Pressing Up `k` times from the live line recalls the `k`-th most recent line, up to the eighth. */
  lemma {:induction false} UpRecalls(e: Editor, k: nat)
    requires e.browse == 0
    ensures var n := if k < Recallable(e.history) then k else Recallable(e.history);
            PressedAll(e, seq(k, _ => Raw(ArrowUp)))
              == if n == 0 then e else e.(browse := n, line := e.history[|e.history| - n])
  {
    if k > 0 {
      var keys := seq(k, _ => Raw(ArrowUp));
      assert keys[..k - 1] == seq(k - 1, _ => Raw(ArrowUp));
      UpRecalls(e, k - 1);
      hide Typing, Newer, AnsiEscape;
    }
  }

  /** Enter, as line feed or as carriage return, starts the program of a line that is not empty and remembers the
      line; an empty line starts and remembers nothing. Either way the next line is live and empty. */
  lemma EnterSubmits(e: Editor, c: byte)
    requires c == 0x0A || c == 0x0D
    ensures var n := Pressed(e, Typed(c));
            && n.line == [] && n.browse == 0
            && (e.line == [] ==> n.history == e.history && n.started == e.started)
            && (e.line != [] ==> n.history == e.history + [e.line] && n.started == e.started + [Split(e.line)])
  {
  }

  /** What the other bytes do: backspace removes the last byte, and any other but Escape is appended while there is
      room; Right, Left and the numbered keys do nothing. */
  lemma KeysEdit(e: Editor, c: byte, code: KeyCode)
    requires c != 0x0A && c != 0x0D && c != 0x1B && code != ArrowUp && code != ArrowDown
    ensures Pressed(e, Typed(0x08)) == if e.line == [] then e else e.(line := e.line[..|e.line| - 1])
    ensures c != 0x08 ==> Pressed(e, Typed(c)) == if |e.line| < 64 then e.(line := e.line + [c]) else e
    ensures Pressed(e, Raw(code)) == e
  {
  }

  /** The bytes of the keys without a character, as VT220 terminals send them. */
  lemma ArrowBytes()
    ensures Sent(Raw(ArrowUp)) == [0x1B, 0x5B, 0x41] && Sent(Raw(ArrowDown)) == [0x1B, 0x5B, 0x42]
    ensures Sent(Raw(ArrowRight)) == [0x1B, 0x5B, 0x43] && Sent(Raw(ArrowLeft)) == [0x1B, 0x5B, 0x44]
    ensures Sent(Raw(Unmapped)) == []
  {
  }

  lemma EditingKeyBytes()
    ensures Sent(Raw(Home)) == [0x1B, 0x5B, 0x31, 0x7E] && Sent(Raw(Insert)) == [0x1B, 0x5B, 0x32, 0x7E]
    ensures Sent(Raw(End)) == [0x1B, 0x5B, 0x34, 0x7E] && Sent(Raw(PageUp)) == [0x1B, 0x5B, 0x35, 0x7E]
    ensures Sent(Raw(PageDown)) == [0x1B, 0x5B, 0x36, 0x7E]
  {
  }

  lemma LowFunctionKeyBytes()
    ensures Sent(Raw(F1)) == [0x1B, 0x5B, 0x31, 0x31, 0x7E] && Sent(Raw(F2)) == [0x1B, 0x5B, 0x31, 0x32, 0x7E]
    ensures Sent(Raw(F3)) == [0x1B, 0x5B, 0x31, 0x33, 0x7E] && Sent(Raw(F4)) == [0x1B, 0x5B, 0x31, 0x34, 0x7E]
    ensures Sent(Raw(F5)) == [0x1B, 0x5B, 0x31, 0x35, 0x7E] && Sent(Raw(F6)) == [0x1B, 0x5B, 0x31, 0x37, 0x7E]
  {
  }

  lemma HighFunctionKeyBytes()
    ensures Sent(Raw(F7)) == [0x1B, 0x5B, 0x31, 0x38, 0x7E] && Sent(Raw(F8)) == [0x1B, 0x5B, 0x31, 0x39, 0x7E]
    ensures Sent(Raw(F9)) == [0x1B, 0x5B, 0x32, 0x30, 0x7E] && Sent(Raw(F10)) == [0x1B, 0x5B, 0x32, 0x31, 0x7E]
    ensures Sent(Raw(F11)) == [0x1B, 0x5B, 0x32, 0x33, 0x7E] && Sent(Raw(F12)) == [0x1B, 0x5B, 0x32, 0x34, 0x7E]
  {
  }

  /** Up and Down, in terms of the lines submitted: the line `browse` places back, of the last eight. */
  lemma ArrowsBrowse(e: Editor)
    requires e.browse <= |e.history|
    ensures var n := Pressed(e, Raw(ArrowUp));
            if e.browse < |e.history| && e.browse < 8
            then n == e.(browse := e.browse + 1, line := e.history[|e.history| - e.browse - 1]) else n == e
    ensures var n := Pressed(e, Raw(ArrowDown));
            if e.browse == 0 then n == e
            else n == e.(browse := e.browse - 1,
                         line := if e.browse == 1 then [] else e.history[|e.history| - e.browse + 1])
  {
  }

  predicate Plain(c: byte) {
    c != BACKSPACE && c != LF && c != CR && c != ESC
  }

  function TypedText(text: seq<byte>): (keys: seq<Key>)
    ensures |keys| == |text|
  {
    seq(|text|, i requires 0 <= i < |text| => Typed(text[i]))
  }

  /** Plain text that fits is appended to the line as typed. */
  lemma {:induction false} TextIsTyped(e: Editor, text: seq<byte>)
    requires |e.line| + |text| <= LINE_BUF_SIZE && forall i :: 0 <= i < |text| ==> Plain(text[i])
    ensures PressedAll(e, TypedText(text)) == e.(line := e.line + text)
  {
    if text == [] {
      assert e.line + text == e.line;
    } else {
      var last := |text| - 1;
      TextIsTyped(e, text[..last]);
      assert TypedText(text)[..last] == TypedText(text[..last]);
      assert e.line + text[..last] + [text[last]] == e.line + text;
    }
  }

  /** A typed line followed by Enter starts its program and becomes the most recent history entry. */
  lemma {:induction false} TextIsSubmitted(e: Editor, text: seq<byte>)
    requires e.line == [] && 0 < |text| <= LINE_BUF_SIZE && forall i :: 0 <= i < |text| ==> Plain(text[i])
    ensures PressedAll(e, TypedText(text) + [Typed(LF)]) == Editor([], 0, e.history + [text], e.started + [Split(text)])
  {
    TextIsTyped(e, text);
    var keys := TypedText(text) + [Typed(LF)];
    assert keys[..|keys| - 1] == TypedText(text);
    assert e.line + text == text;
  }

  /** Backspace undoes a character that was taken. */
  lemma BackspaceUndoes(e: Editor, c: byte)
    requires Plain(c) && |e.line| < LINE_BUF_SIZE
    ensures Pressed(Pressed(e, Typed(c)), Typed(BACKSPACE)) == e
  {
    assert (e.line + [c])[..|e.line|] == e.line;
  }

  /** Down undoes Up while a stored line is shown, and from the first one leads to an empty line. */
  lemma DownUndoesUp(e: Editor)
    requires e.browse < Recallable(e.history)
    requires e.browse > 0 ==> e.line == e.history[|e.history| - e.browse]
    ensures Pressed(Pressed(e, Raw(ArrowUp)), Raw(ArrowDown)) == if e.browse > 0 then e else e.(line := [])
  {
  }

  /** The parts of a command line put the line together again. */
  lemma SplitIsLine(line: seq<byte>)
    ensures 0x20 !in Split(line).path
    ensures line == if 0x20 in line then Split(line).path + [0x20] + Split(line).args else Split(line).path
    ensures 0x20 !in line ==> Split(line).args == []
  {
    var n := FirstSpace(line);
    hide FirstSpace;
    assert line == line[..n] + line[n..];
    if n < |line| {
      assert line[n] in line;
    } else {
      assert line[..n] == line;
    }
  }
}
