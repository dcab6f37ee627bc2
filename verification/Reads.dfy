/** `sys_read` loses nothing: it either kills its caller before consuming anything, or delivers exactly the
    bytes it consumed. */
module Reads {
  import opened Basics
  import opened Frames
  import opened Paging
  import opened Scheduler
  import opened UserAccess

  const INPUT_QUEUE_CAPACITY: nat := 128

  /** Decoded keyboard bytes, oldest at `head`. */
  class InputQueue {
    const bytes: array<byte>
    var head: nat
    var len: nat

    ghost predicate Valid()
      reads this, bytes
    {
      bytes.Length == INPUT_QUEUE_CAPACITY && head < INPUT_QUEUE_CAPACITY && len <= INPUT_QUEUE_CAPACITY
    }

    ghost function Contents(): (q: seq<byte>)
      requires Valid()
      reads this, bytes
      ensures |q| == len
    {
      seq(len, i requires 0 <= i < len reads this, bytes requires Valid() => bytes[(head + i) % INPUT_QUEUE_CAPACITY])
    }

    constructor ()
      ensures Valid() && fresh(bytes) && Contents() == []
    {
      bytes := new byte[INPUT_QUEUE_CAPACITY](_ => 0);
      head := 0;
      len := 0;
    }

    /** A byte that arrives at a full queue is dropped; unread bytes are never overwritten. */
    method Push(b: byte)
      requires Valid()
      modifies this`len, bytes
      ensures Valid()
      ensures Contents() == if |old(Contents())| == INPUT_QUEUE_CAPACITY then old(Contents()) else old(Contents()) + [b]
    {
      if len == INPUT_QUEUE_CAPACITY {
        return;
      }
      var index := (head + len) % INPUT_QUEUE_CAPACITY;
      bytes[index] := b;
      len := len + 1;
    }

    method Pop() returns (r: Option<byte>)
      requires Valid()
      modifies this`head, this`len
      ensures Valid()
      ensures r.None? ==> old(Contents()) == [] && Contents() == []
      ensures r.Some? ==> old(Contents()) == [r.value] + Contents()
    {
      if len == 0 {
        return None;
      }
      var b := bytes[head];
      ghost var q, h := Contents(), head;
      head := (head + 1) % INPUT_QUEUE_CAPACITY;
      len := len - 1;
      forall i: nat | i < len
        ensures Contents()[i] == q[i + 1]
      {
        WrapNext(h, i);
      }
      r := Some(b);
    }

    /** The pop loop of `sys_read_stdin`. */
    method PopUpTo(n: nat) returns (staged: seq<byte>)
      requires Valid()
      modifies this`head, this`len
      ensures Valid()
      ensures |staged| == if n < |old(Contents())| then n else |old(Contents())|
      ensures old(Contents()) == staged + Contents()
    {
      hide Contents;
      staged := [];
      while |staged| < n
        invariant Valid() && |staged| <= n
        invariant old(Contents()) == staged + Contents()
      {
        var next := Pop();
        if next.None? {
          break;
        }
        assert staged + ([next.value] + Contents()) == staged + [next.value] + Contents();
        staged := staged + [next.value];
      }
    }
  }

  /** One position further, seen from the next head. */
  lemma WrapNext(head: nat, i: nat)
    ensures ((head + 1) % INPUT_QUEUE_CAPACITY + i) % INPUT_QUEUE_CAPACITY == (head + (i + 1)) % INPUT_QUEUE_CAPACITY
  {
  }

  // ---------------------------------------------------------------- open files

  const MAX_OPEN_FILES: nat := 4
  const FIRST_FILE_FD: nat := 2

  predicate FileOk(f: Option<OpenFile>) {
    f.Some? ==> f.value.offset <= |f.value.data|
  }

  /** A thread's table of open files. */
  class FileTable {
    const files: array<Option<OpenFile>>

    ghost predicate Valid()
      reads this, files
    {
      files.Length == MAX_OPEN_FILES && forall i: nat :: i < MAX_OPEN_FILES ==> FileOk(files[i])
    }

    constructor ()
      ensures Valid() && fresh(files) && forall i: nat :: i < MAX_OPEN_FILES ==> files[i].None?
    {
      files := new Option<OpenFile>[MAX_OPEN_FILES](_ => None);
    }

    /** The file behind a descriptor, if it is open. */
    ghost function Behind(fd: nat): (f: Option<OpenFile>)
      requires Valid()
      reads this, files
      ensures FileOk(f)
    {
      if FIRST_FILE_FD <= fd < FIRST_FILE_FD + MAX_OPEN_FILES then files[fd - FIRST_FILE_FD] else None
    }

    /** `open_file`: the lowest closed descriptor now stands for `data` from its beginning, or every
        descriptor is in use. */
    method Open(data: seq<byte>) returns (r: Option<nat>)
      requires Valid()
      modifies files
      ensures Valid()
      ensures r.None? ==> forall fd :: Behind(fd) == old(Behind(fd))
      ensures r.None? <==> forall fd :: 2 <= fd < 6 ==> old(Behind(fd)).Some?
      ensures r.Some? ==> 2 <= r.value < 6 && old(Behind(r.value)).None? && Behind(r.value) == Some(OpenFile(data, 0))
      ensures r.Some? ==> forall fd :: fd != r.value ==> Behind(fd) == old(Behind(fd))
      ensures r.Some? ==> forall fd :: 2 <= fd < r.value ==> old(Behind(fd)).Some?
    {
      var slot := 0;
      while slot < MAX_OPEN_FILES && files[slot].Some?
        invariant slot <= MAX_OPEN_FILES && forall fd :: FIRST_FILE_FD <= fd < FIRST_FILE_FD + slot ==> Behind(fd).Some?
      {
        slot := slot + 1;
      }
      if slot == MAX_OPEN_FILES {
        return None;
      }
      assert Behind(FIRST_FILE_FD + slot).None?;
      files[slot] := Some(OpenFile(data, 0));
      r := Some(slot + FIRST_FILE_FD);
    }

    /** `read_open_file`: the next bytes of the file, whose position advances by exactly as many. */
    method Read(fd: nat, n: nat) returns (r: Option<seq<byte>>)
      requires Valid()
      modifies files
      ensures Valid()
      ensures r.None? <==> old(Behind(fd)).None?
      ensures r.None? ==> Behind(fd) == old(Behind(fd))
      ensures r.Some? ==>
        && Behind(fd).Some? && Behind(fd).value.data == old(Behind(fd)).value.data
        && Behind(fd).value.offset == old(Behind(fd)).value.offset + |r.value|
        && r.value == Behind(fd).value.data[old(Behind(fd)).value.offset..Behind(fd).value.offset]
        && (|r.value| == n || (|r.value| < n && Behind(fd).value.offset == |Behind(fd).value.data|))
      ensures forall other :: other != fd ==> Behind(other) == old(Behind(other))
    {
      if fd < FIRST_FILE_FD {
        return None;
      }
      var slot := fd - FIRST_FILE_FD;
      if slot >= MAX_OPEN_FILES || files[slot].None? {
        return None;
      }
      var file := files[slot].value;
      assert FileOk(files[slot]);
      var remaining := file.data[file.offset..];
      var count := if |remaining| < n then |remaining| else n;
      files[slot] := Some(file.(offset := file.offset + count));
      r := Some(remaining[..count]);
    }

    /** `close_file`: whether the descriptor was open; it is closed afterwards. */
    method Close(fd: nat) returns (ok: bool)
      requires Valid()
      modifies files
      ensures Valid()
      ensures ok <==> old(Behind(fd)).Some?
      ensures Behind(fd).None? && forall other :: other != fd ==> Behind(other) == old(Behind(other))
    {
      if fd < FIRST_FILE_FD || fd - FIRST_FILE_FD >= MAX_OPEN_FILES {
        return false;
      }
      var slot := fd - FIRST_FILE_FD;
      if files[slot].None? {
        return false;
      }
      files[slot] := None;
      ok := true;
    }
  }

  // ---------------------------------------------------------------- sys_read

  const U64_MAX: nat := 0xFFFF_FFFF_FFFF_FFFF

  /** `Killed` is `kill_current_thread`; `Faulted` is a processor fault in the kernel's own copy, through a
      pointer that was accepted as the address it is sign-extended to but has no address itself. */
  datatype Outcome = Returned(value: nat) | Killed | Faulted

  predicate HasByte(user: map<nat, byte>, ptr: nat, i: nat, b: byte) {
    ptr + i in user && user[ptr + i] == b
  }

  predicate SameByte(user: map<nat, byte>, user': map<nat, byte>, a: nat) {
    (a in user' <==> a in user) && (a in user ==> user'[a] == user[a])
  }

  /** The caller's bytes by virtual address, before and after `data` is copied to `ptr`. */
  ghost predicate Delivered(user: map<nat, byte>, user': map<nat, byte>, ptr: nat, data: seq<byte>) {
    && (forall i: nat :: i < |data| ==> HasByte(user', ptr, i, data[i]))
    && (forall a: nat :: !(ptr <= a < ptr + |data|) ==> SameByte(user, user', a))
  }

  /** No byte changed that ring 3 could not have written itself. */
  ghost predicate OnlyWritable(mem: Memory, root: Frame, user: map<nat, byte>, user': map<nat, byte>) {
    forall a: nat :: SameByte(user, user', a) || ByteGranted(mem, root, a, true)
  }

  lemma NothingWritten(mem: Memory, root: Frame, user: map<nat, byte>, ptr: nat, n: nat)
    ensures OnlyWritable(mem, root, user, user)
    ensures forall a: nat :: !(ptr <= a < ptr + n) ==> SameByte(user, user, a)
  {
  }

  lemma DeliveredWithin(user: map<nat, byte>, user': map<nat, byte>, ptr: nat, data: seq<byte>, n: nat)
    requires Delivered(user, user', ptr, data) && |data| <= n
    ensures forall a: nat :: !(ptr <= a < ptr + n) ==> SameByte(user, user', a)
  {
  }

  /** What a copy has delivered so far is within what ring 3 may write. */
  lemma WrittenPart(mem: Memory, root: Frame, user: map<nat, byte>, user': map<nat, byte>, ptr: nat, data: seq<byte>,
                    i: nat)
    requires Usable(mem, root, ptr, |data|, true) == Answer(true) && i <= |data| <= LOW_LIMIT
    requires Delivered(user, user', ptr, data[..i]) && (i == 0 || OneHalf(ptr, i))
    ensures OnlyWritable(mem, root, user, user')
  {
    hide Usable, SameByte;
    if i > 0 {
      UsablePart(mem, root, ptr, |data|, i, true);
      AddressableUsable(mem, root, ptr, i, true);
    }
  }

  /** A thread inside a system call: its page tables, its memory, the keyboard queue and its files. */
  class Caller {
    const mem: Memory
    const root: Frame
    const input: InputQueue
    const files: FileTable
    var user: map<nat, byte>

    ghost predicate Valid()
      reads this, input, input.bytes, files, files.files
    {
      input.Valid() && files.Valid()
    }

    constructor (memory: Memory, l4: Frame, queue: InputQueue, table: FileTable, bytes: map<nat, byte>)
      requires queue.Valid() && table.Valid()
      ensures Valid() && mem == memory && root == l4 && input == queue && files == table && user == bytes
    {
      mem, root, input, files, user := memory, l4, queue, table, bytes;
    }

    /** `copy_to_user`: checks the range again, then copies through the raw pointer. */
    method CopyToUser(ptr: nat, data: seq<byte>) returns (r: Verdict)
      requires |data| < U64_LIMIT
      modifies this`user
      ensures r == CopyVerdict(mem, root, ptr, |data|)
      ensures r == Answer(false) ==> user == old(user)
      ensures r == Answer(true) ==> Delivered(old(user), user, ptr, data)
      ensures forall a: nat :: !(ptr <= a < ptr + |data|) ==> SameByte(old(user), user, a)
      ensures |data| <= LOW_LIMIT ==> OnlyWritable(mem, root, old(user), user)
    {
      hide Usable, Delivered, RangeGranted, OnlyWritable, SameByte;
      NothingWritten(mem, root, user, ptr, 0);
      r := UserRangeOk(mem, root, ptr, |data|, true);
      if r != Answer(true) {
        return;
      }
      var i := 0;
      NothingDelivered(user, ptr);
      assert data[..0] == [];
      while i < |data|
        invariant i <= |data| && Delivered(old(user), user, ptr, data[..i]) && (i == 0 || OneHalf(ptr, i))
      {
        if !Canonical(ptr + i) {
          NoAddress(mem, root, ptr, |data|, i);
          DeliveredWithin(old(user), user, ptr, data[..i], |data|);
          if |data| <= LOW_LIMIT {
            WrittenPart(mem, root, old(user), user, ptr, data, i);
          }
          return Panics;
        }
        DeliverByte(old(user), user, ptr, data[..i], data[i]);
        assert data[..i] + [data[i]] == data[..i + 1];
        user := user[ptr + i := data[i]];
        i := i + 1;
      }
      assert data[..i] == data;
      DeliveredWithin(old(user), user, ptr, data, |data|);
      if |data| <= LOW_LIMIT {
        WrittenPart(mem, root, old(user), user, ptr, data, |data|);
      }
      if |data| > 0 {
        AddressableUsable(mem, root, ptr, |data|, true);
      } else {
        NothingGranted(mem, root, ptr);
      }
    }

    /** `sys_read_stdin`. */
    method ReadStdin(ptr: nat, len: nat) returns (r: Outcome)
      requires Valid() && 0 < len <= 256
      modifies this`user, input
      ensures Valid()
      ensures StdinOutcome(mem, root, ptr, len, old(input.Contents()), input.Contents(), old(user), user, r)
      ensures exists n :: 0 <= n <= len && n <= |old(input.Contents())|
                          && input.Contents() == old(input.Contents())[n..]
      ensures forall a: nat :: !(ptr <= a < ptr + len) ==> SameByte(old(user), user, a)
      ensures OnlyWritable(mem, root, old(user), user)
    {
      hide Usable, Delivered, RangeGranted, OnlyWritable, SameByte;
      NothingWritten(mem, root, user, ptr, len);
      assert input.Contents() == input.Contents()[0..];
      ShortChecksAnswer(mem, root, ptr, len, true);
      var ok := UserRangeOk(mem, root, ptr, len, true);
      if !ok.ok {
        return Killed;
      }
      ghost var queue := input.Contents();
      var staged := input.PopUpTo(len);
      assert queue[..|staged|] == staged && queue[|staged|..] == input.Contents();
      UsablePart(mem, root, ptr, len, |staged|, true);
      if |staged| > 0 {
        var again := CopyToUser(ptr, staged);
        if again.Panics? {
          return Faulted;
        }
      } else {
        NothingDelivered(user, ptr);
        NothingGranted(mem, root, ptr);
        assert staged == [];
      }
      r := Returned(|staged|);
    }

    /** `sys_read_file`. */
    method ReadFile(fd: nat, ptr: nat, len: nat) returns (r: Outcome)
      requires Valid() && 0 < len <= 256
      modifies this`user, files.files
      ensures Valid()
      ensures FileOutcome(mem, root, ptr, len, old(files.Behind(fd)), files.Behind(fd), old(user), user, r)
      ensures forall other :: other != fd ==> files.Behind(other) == old(files.Behind(other))
      ensures MovedAtMost(old(files.Behind(fd)), files.Behind(fd), len)
      ensures forall a: nat :: !(ptr <= a < ptr + len) ==> SameByte(old(user), user, a)
      ensures OnlyWritable(mem, root, old(user), user)
    {
      hide Usable, Delivered, FileTable.Behind, RangeGranted, OnlyWritable, SameByte;
      NothingWritten(mem, root, user, ptr, len);
      ShortChecksAnswer(mem, root, ptr, len, true);
      var ok := UserRangeOk(mem, root, ptr, len, true);
      if !ok.ok {
        return Killed;
      }
      var staged := files.Read(fd, len);
      if staged.None? {
        return Returned(U64_MAX);
      }
      UsablePart(mem, root, ptr, len, |staged.value|, true);
      if |staged.value| > 0 {
        var again := CopyToUser(ptr, staged.value);
        if again.Panics? {
          return Faulted;
        }
      } else {
        NothingDelivered(user, ptr);
        NothingGranted(mem, root, ptr);
        assert staged.value == [];
      }
      r := Returned(|staged.value|);
    }

    /** `sys_read`: at most 256 bytes, from the keyboard for descriptor 0 and from an open file from 2 on. A
        read that returns gives the least of what was asked for, 256 and what there is; however it ends, no
        byte outside the buffer asked for changes and none that ring 3 could not write, and the source moves
        by no more than was asked for. */
    method SysRead(fd: nat, ptr: nat, wanted: nat) returns (r: Outcome)
      requires Valid()
      modifies this`user, input, files.files
      ensures Valid()
      ensures wanted == 0 ==> r == Returned(0)
      ensures wanted > 0 && fd == 1 ==> r == Returned(0xFFFF_FFFF_FFFF_FFFF)
      ensures wanted == 0 || fd == 1 ==> user == old(user)
      ensures wanted > 0 && fd == 0 ==>
                StdinOutcome(mem, root, ptr, if wanted < 256 then wanted else 256,
                             old(input.Contents()), input.Contents(), old(user), user, r)
      ensures wanted > 0 && fd >= 2 ==>
                FileOutcome(mem, root, ptr, if wanted < 256 then wanted else 256,
                            old(files.Behind(fd)), files.Behind(fd), old(user), user, r)
      ensures fd == 0 && r.Returned? ==>
                && IsLeast(r.value, wanted, 256, |old(input.Contents())|)
                && input.Contents() == old(input.Contents())[r.value..]
                && forall a: nat :: ptr <= a < ptr + r.value ==> a in user && user[a] == old(input.Contents())[a - ptr]
      ensures fd >= 2 && r.Returned? && old(files.Behind(fd)).Some? ==>
                var f := old(files.Behind(fd)).value;
                && IsLeast(r.value, wanted, 256, |f.data| - f.offset)
                && (wanted > 0 ==> files.Behind(fd) == Some(OpenFile(f.data, f.offset + r.value)))
                && forall a: nat :: ptr <= a < ptr + r.value ==> a in user && user[a] == f.data[f.offset + (a - ptr)]
      ensures forall a: nat :: !(ptr <= a < ptr + wanted) ==> SameByte(old(user), user, a)
      ensures OnlyWritable(mem, root, old(user), user)
      ensures wanted == 0 || fd != 0 ==> input.Contents() == old(input.Contents())
      ensures exists n :: 0 <= n <= wanted && n <= |old(input.Contents())|
                          && input.Contents() == old(input.Contents())[n..]
      ensures forall other :: wanted == 0 || fd < 2 || other != fd ==> files.Behind(other) == old(files.Behind(other))
      ensures MovedAtMost(old(files.Behind(fd)), files.Behind(fd), wanted)
    {
      hide FileTable.Behind, InputQueue.Contents, Usable, Delivered, RangeGranted, OnlyWritable, SameByte;
      NothingWritten(mem, root, user, ptr, wanted);
      assert input.Contents() == input.Contents()[0..];
      var len := if wanted < 256 then wanted else 256;
      if len == 0 {
        return Returned(0);
      }
      if fd == 0 {
        r := ReadStdin(ptr, len);
        if r.Returned? {
          DeliveredBytes(old(user), user, ptr, old(input.Contents())[..r.value]);
        }
      } else if fd >= FIRST_FILE_FD {
        ghost var file := files.Behind(fd);
        r := ReadFile(fd, ptr, len);
        if r.Returned? && file.Some? {
          var f := file.value;
          DeliveredBytes(old(user), user, ptr, f.data[f.offset..f.offset + r.value]);
        }
      } else {
        r := Returned(U64_MAX);
      }
    }
  }

  lemma DeliveredBytes(user: map<nat, byte>, user': map<nat, byte>, ptr: nat, data: seq<byte>)
    requires Delivered(user, user', ptr, data)
    ensures forall a: nat :: ptr <= a < ptr + |data| ==> a in user' && user'[a] == data[a - ptr]
  {
    forall a: nat | ptr <= a < ptr + |data|
      ensures a in user' && user'[a] == data[a - ptr]
    {
      assert HasByte(user', ptr, a - ptr, data[a - ptr]);
    }
  }

  predicate IsLeast(n: nat, a: nat, b: nat, c: int) {
    n <= a && n <= b && n <= c && (n == a || n == b || n == c)
  }

  /** The file behind a descriptor is the same one, at most `n` bytes further. */
  predicate MovedAtMost(file: Option<OpenFile>, file': Option<OpenFile>, n: nat) {
    match file
    case None => file'.None?
    case Some(f) =>
      file'.Some? && file'.value.data == f.data && f.offset <= file'.value.offset <= f.offset + n
  }

  /** Checking and then copying `n` bytes: the copy itself faults where a byte has no address. */
  ghost function CopyVerdict(mem: Memory, root: Frame, ptr: nat, n: nat): Verdict {
    if Usable(mem, root, ptr, n, true) == Answer(true) && !RangeGranted(mem, root, ptr, n, true) then Panics
    else Usable(mem, root, ptr, n, true)
  }

  function Min(a: nat, b: nat): nat {
    if a < b then a else b
  }

  /** A keyboard read: killed with queue and memory untouched exactly when the destination is refused;
      otherwise the bytes removed from the front of the queue are the bytes delivered, as many as wanted or
      there are. */
  ghost predicate StdinOutcome(mem: Memory, root: Frame, ptr: nat, len: nat, queue: seq<byte>, queue': seq<byte>,
                               user: map<nat, byte>, user': map<nat, byte>, r: Outcome)
  {
    var n := Min(len, |queue|);
    match r
    case Killed => Usable(mem, root, ptr, len, true) == Answer(false) && queue' == queue && user' == user
    case Faulted => Usable(mem, root, ptr, len, true) == Answer(true) && !RangeGranted(mem, root, ptr, n, true)
    case Returned(value) =>
      && Usable(mem, root, ptr, len, true) == Answer(true) && RangeGranted(mem, root, ptr, n, true)
      && value == n && queue' == queue[n..] && Delivered(user, user', ptr, queue[..n])
  }

  /** The same for a file, whose position moves over exactly the bytes delivered; a closed descriptor gives
      the error value and changes nothing. */
  ghost predicate FileOutcome(mem: Memory, root: Frame, ptr: nat, len: nat, file: Option<OpenFile>,
                              file': Option<OpenFile>,
                              user: map<nat, byte>, user': map<nat, byte>, r: Outcome)
    requires FileOk(file)
  {
    if r.Killed? then Usable(mem, root, ptr, len, true) == Answer(false) && file' == file && user' == user
    else
      && Usable(mem, root, ptr, len, true) == Answer(true)
      && match file
         case None => r == Returned(U64_MAX) && file' == file && user' == user
         case Some(f) =>
           var n := Min(len, |f.data| - f.offset);
           if !RangeGranted(mem, root, ptr, n, true) then r.Faulted?
           else
             && r == Returned(n) && file' == Some(f.(offset := f.offset + n))
             && Delivered(user, user', ptr, f.data[f.offset..f.offset + n])
  }

  /** With the upper half closed to ring 3 no read faults. */
  lemma ReadsNeverFault(mem: Memory, root: Frame, ptr: nat, len: nat, n: nat)
    requires UpperClosed(mem, root, true) && n <= len <= 256 && Usable(mem, root, ptr, len, true) == Answer(true)
    ensures RangeGranted(mem, root, ptr, n, true)
  {
    if len > 0 {
      UsableRightWhenClosed(mem, root, ptr, len, true);
    }
  }

  lemma NoAddress(mem: Memory, root: Frame, ptr: nat, n: nat, i: nat)
    requires i < n && !Canonical(ptr + i)
    ensures !RangeGranted(mem, root, ptr, n, true)
  {
    assert !ByteGranted(mem, root, ptr + i, true);
  }

  lemma NothingGranted(mem: Memory, root: Frame, ptr: nat)
    ensures RangeGranted(mem, root, ptr, 0, true)
  {
  }

  lemma DeliverByte(user: map<nat, byte>, user': map<nat, byte>, ptr: nat, data: seq<byte>, b: byte)
    requires Delivered(user, user', ptr, data)
    ensures Delivered(user, user'[ptr + |data| := b], ptr, data + [b])
  {
    var end := user'[ptr + |data| := b];
    forall i: nat | i < |data| + 1
      ensures HasByte(end, ptr, i, (data + [b])[i])
    {
      if i < |data| {
        assert HasByte(user', ptr, i, data[i]);
      }
    }
    forall a: nat | !(ptr <= a < ptr + |data| + 1)
      ensures SameByte(user, end, a)
    {
      assert SameByte(user, user', a);
    }
  }

  lemma NothingDelivered(user: map<nat, byte>, ptr: nat)
    ensures Delivered(user, user, ptr, [])
  {
  }
}
