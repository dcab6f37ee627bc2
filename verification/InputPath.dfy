/** From the keyboard to the shell: the bytes sent for keys wait in the input queue until the shell reads them
    (src/task/keyboard.rs and disk/shell.s). */
module InputPath {
  import opened Basics
  import opened Reads
  import opened Shell
  import opened ShellCode

  /** A byte of a key arrives at the queue, or the shell asks for its next byte. */
  datatype Event = Arrives(b: byte) | Asks

  /** The bytes waiting, and those the shell has read. */
  datatype Wire = Wire(waiting: seq<byte>, read: seq<byte>)

  function Happened(w: Wire, event: Event): Wire {
    match event
    case Arrives(b) => if |w.waiting| == INPUT_QUEUE_CAPACITY then w else w.(waiting := w.waiting + [b])
    case Asks => if w.waiting == [] then w else Wire(w.waiting[1..], w.read + [w.waiting[0]])
  }

  function WireAfter(events: seq<Event>): Wire {
    if events == [] then Wire([], []) else Happened(WireAfter(events[..|events| - 1]), events[|events| - 1])
  }

  /** The bytes that arrived. */
  function Arrived(events: seq<Event>): seq<byte> {
    if events == [] then []
    else
      var before, last := Arrived(events[..|events| - 1]), events[|events| - 1];
      if last.Arrives? then before + [last.b] else before
  }

  /** No byte arrives while 128 are waiting. */
  ghost predicate NeverOverrun(events: seq<Event>) {
    forall i :: 0 <= i < |events| && events[i].Arrives? ==> |WireAfter(events[..i]).waiting| < 128
  }

  lemma OverrunOrNot(events: seq<Event>)
    requires events != []
    ensures var rest := events[..|events| - 1];
            NeverOverrun(events) <==>
              && NeverOverrun(rest)
              && (events[|events| - 1].Arrives? ==> |WireAfter(rest).waiting| < INPUT_QUEUE_CAPACITY)
  {
    hide WireAfter;
    var rest := events[..|events| - 1];
    forall i | 0 <= i < |rest|
      ensures rest[..i] == events[..i]
    {
    }
  }

  /** The queue holds at most 128 bytes. What the shell has read and what is waiting make up exactly what
      arrived if nothing was dropped, and fall short of it otherwise. */
  ghost predicate Balanced(w: Wire, arrived: seq<byte>, dropped: bool) {
    && |w.waiting| <= INPUT_QUEUE_CAPACITY
    && (if dropped then |w.read| + |w.waiting| < |arrived| else w.read + w.waiting == arrived)
  }

  lemma BalancedStep(w: Wire, arrived: seq<byte>, dropped: bool, event: Event)
    requires Balanced(w, arrived, dropped)
    ensures Balanced(Happened(w, event), if event.Arrives? then arrived + [event.b] else arrived,
                     dropped || (event.Arrives? && |w.waiting| == INPUT_QUEUE_CAPACITY))
  {
    if event.Asks? && w.waiting != [] {
      assert w.waiting == [w.waiting[0]] + w.waiting[1..];
      assert w.read + w.waiting == w.read + [w.waiting[0]] + w.waiting[1..];
    } else if event.Arrives? && |w.waiting| < INPUT_QUEUE_CAPACITY {
      assert w.read + (w.waiting + [event.b]) == w.read + w.waiting + [event.b];
    }
  }

  /** After any events nothing is missing exactly when no byte arrived at a full queue. */
  lemma {:induction false} NothingDropped(events: seq<Event>)
    ensures Balanced(WireAfter(events), Arrived(events), !NeverOverrun(events))
  {
    if events != [] {
      var rest := events[..|events| - 1];
      NothingDropped(rest);
      OverrunOrNot(events);
      OneMore(events);
      hide NeverOverrun, Arrived, Balanced, Happened;
      BalancedSize(WireAfter(rest), Arrived(rest), !NeverOverrun(rest));
      BalancedStep(WireAfter(rest), Arrived(rest), !NeverOverrun(rest), events[|events| - 1]);
    }
  }

  lemma BalancedSize(w: Wire, arrived: seq<byte>, dropped: bool)
    requires Balanced(w, arrived, dropped)
    ensures |w.waiting| <= INPUT_QUEUE_CAPACITY && |w.read| + |w.waiting| <= |arrived|
  {
  }

  lemma {:induction false} OneMore(events: seq<Event>)
    requires events != []
    ensures var before, last := Arrived(events[..|events| - 1]), events[|events| - 1];
            Arrived(events) == if last.Arrives? then before + [last.b] else before
  {
  }

  /** However its reading interleaves with the typing of keys, the shell has read a prefix of the bytes sent for
      them, as long as no byte arrives while 128 are waiting; once none is waiting, it is where the keys
      lead. */
  lemma {:induction false} KeysReachShell(c: Console, keys: seq<Key>, events: seq<Event>)
    requires Arrived(events) == SentAll(keys) && NeverOverrun(events)
    ensures WireAfter(events).read <= SentAll(keys)
    ensures WireAfter(events).waiting == [] ==> FedAll(c, WireAfter(events).read) == PressedAllIn(c, keys)
  {
    NothingDropped(events);
    AllKeysArrive(c, keys);
    var w := WireAfter(events);
    hide FedAll, PressedAllIn, SentAll, WireAfter, NeverOverrun, Arrived;
    assert w.waiting == [] ==> w.read + w.waiting == w.read;
  }

  /** Keys that come to at most 128 bytes cannot overrun the queue. */
  lemma {:induction false} ShortBurstsFit(events: seq<Event>)
    requires |Arrived(events)| <= 128
    ensures NeverOverrun(events)
  {
    if events != [] {
      var rest := events[..|events| - 1];
      OneMore(events);
      ShortBurstsFit(rest);
      NothingDropped(rest);
      OverrunOrNot(events);
    }
  }

  /** The queue and the shell program behave so: after any events, the program is where the bytes it has read
      lead, and the queue holds the bytes waiting. */
  method Deliver(events: seq<Event>) returns (queue: InputQueue, shell: ShellProgram)
    ensures fresh(queue) && queue.Valid() && queue.Contents() == WireAfter(events).waiting
    ensures fresh(shell) && shell.Valid() && shell.View() == FedAll(Console(Normal, BLANK), WireAfter(events).read)
  {
    queue := new InputQueue();
    shell := new ShellProgram();
    assert events[..0] == [];
    var i := 0;
    while i < |events|
      invariant i <= |events| && fresh(queue) && fresh(queue.bytes) && queue.Valid()
      invariant fresh(shell) && fresh(shell.lineBuf) && fresh(shell.lines) && fresh(shell.lens) && shell.Valid()
      invariant {queue, queue.bytes} !! {shell, shell.lineBuf, shell.lines, shell.lens}
      invariant queue.Contents() == WireAfter(events[..i]).waiting
      invariant shell.View() == FedAll(Console(Normal, BLANK), WireAfter(events[..i]).read)
    {
      hide RingOk, Fed;
      assert events[..i + 1][..i] == events[..i];
      match events[i] {
        case Arrives(b) =>
          queue.Push(b);
        case Asks =>
          var next := queue.Pop();
          if next.Some? {
            ghost var w := WireAfter(events[..i]);
            assert w.waiting[0] == next.value && w.waiting[1..] == queue.Contents();
            assert (w.read + [next.value])[..|w.read|] == w.read;
            shell.Feed(next.value);
          }
      }
      i := i + 1;
    }
    assert events[..i] == events;
  }
}
