/** The character device as its users see it: every entry ever committed, the
    bytes still waiting for a newline, the lock, and the position of each open
    file. One `Step` per system call; everything the kernel may decide (memory
    exhausted, user copy cut short, signal while waiting) is part of the call. */
module DeviceSpec {
  import opened Bytes
  import opened Positions
  import opened CircularBuffer

  datatype Errno = EINTR | ENOMEM | EFAULT | EINVAL | ERESTARTSYS | EBADF

  /** What a call returns. `Hung` is a call that waits for ever for the lock. */
  datatype Outcome =
    | Count(n: nat)
    | Data(bytes: seq<byte>)
    | Moved(pos: nat)
    | Error(errno: Errno)
    | Hung

  datatype Dev = Dev(
    limit: nat,                    // no allocation above this size succeeds
    committed: seq<seq<byte>>,     // every entry ever added to the ring
    pending: seq<byte>,            // accepted, not yet terminated by a newline
    stale: bool,                   // the pending entry has a block but no bytes
    leaks: nat,                    // blocks that nothing points to any more
    locked: bool                   // the lock was taken and never released
  ) {
    /** What can be read back: the last ten entries, end to end. */
    function Content(): seq<byte> {
      Concat(Last(committed))
    }

    /** How many entries the ring has already pushed out. */
    function Evicted(): (r: nat)
      ensures r <= |committed|
    {
      |committed| - |Last(committed)|
    }

    /** How many committed bytes have already been overwritten. */
    function Gone(): nat {
      |Concat(committed[..Evicted()])|
    }

    ghost predicate Inv() {
      && WellFormed(committed, limit)
      && |pending| <= limit
      && (stale ==> pending == [])
    }
  }

  /** Every entry is nonempty, within the limit, and ends in a newline. */
  ghost predicate WellFormed(entries: seq<seq<byte>>, limit: nat) {
    entries == [] ||
    (var n := |entries| - 1;
     WellFormed(entries[..n], limit) && |entries[n]| <= limit && EndsInNewline(entries[n]))
  }

  // ---- write ---------------------------------------------------------------

  predicate EndsInNewline(w: seq<byte>) {
    w != [] && w[|w| - 1] == NEWLINE
  }

  /** A write of `data` of which `copied` bytes could be read from the caller;
      `bufOk` and `tempOk` are the allocator's answers. */
  function WriteDev(d: Dev, data: seq<byte>, copied: nat, bufOk: bool, tempOk: bool): (r: (Dev, Outcome))
    requires copied <= |data|
  {
    var got := data[..copied];
    var commits := copied == |data| && EndsInNewline(data);
    if !bufOk || |data| > d.limit then
      (d, Error(ENOMEM))
    else if d.pending != [] && (!tempOk || |d.pending| + copied > d.limit) then
      (d.(leaks := d.leaks + 1), Error(ENOMEM))
    else
      var kept := d.(leaks := d.leaks + if d.stale then 1 else 0);
      if commits then
        (kept.(committed := d.committed + [d.pending + got], pending := [], stale := false), Count(copied))
      else
        (kept.(pending := d.pending + got, stale := d.pending + got == []), Count(copied))
  }

  /** The same behind the lock. */
  function WriteCall(d: Dev, data: seq<byte>, copied: nat, bufOk: bool, tempOk: bool, interrupted: bool): (Dev, Outcome)
    requires copied <= |data|
  {
    if interrupted then (d, Error(EINTR))
    else if d.locked then (d, Hung)
    else WriteDev(d, data, copied, bufOk, tempOk)
  }

  // ---- read ----------------------------------------------------------------

  /** A read never crosses the end of an entry. */
  function ReadDev(d: Dev, pos: nat, count: nat, fault: bool): Outcome {
    match Locate(Sizes(Last(d.committed)), pos)
    case Miss => Data([])
    case At(k, i) =>
      LocateIff(Sizes(Last(d.committed)), pos, k, i);
      var entry := Last(d.committed)[k];
      var n := Min(|entry| - i, count);
      if fault && 0 < n then Error(EFAULT) else Data(entry[i..i + n])
  }

  function ReadCall(d: Dev, pos: nat, count: nat, fault: bool, interrupted: bool): Outcome {
    if interrupted then Error(EINTR)
    else if d.locked then Hung
    else ReadDev(d, pos, count, fault)
  }

  // ---- llseek --------------------------------------------------------------

  datatype Whence = SeekSet | SeekCur | SeekEnd | SeekOther

  /** The kernel's fixed_size_llseek. */
  function FixedSizeLlseek(pos: nat, off: int, whence: Whence, size: nat): (Outcome, nat) {
    if whence == SeekOther then (Error(EINVAL), pos)
    else if whence == SeekCur && off == 0 then (Moved(pos), pos)
    else
      var target := match whence case SeekCur => pos + off case SeekEnd => size + off case _ => off;
      if 0 <= target <= size then (Moved(target), target) else (Error(EINVAL), pos)
  }

  function LlseekCall(d: Dev, pos: nat, off: int, whence: Whence, interrupted: bool): (Outcome, nat) {
    if interrupted then (Error(EINTR), pos)
    else if d.locked then (Hung, pos)
    else FixedSizeLlseek(pos, off, whence, |d.Content()|)
  }

  // ---- ioctl ---------------------------------------------------------------

  /** The word the driver decodes: only its lowest byte comes from the caller. */
  function ReceivedWord(first: bv8, garbage: bv32): bv32 {
    (garbage & 0xFFFF_FF00) | (first as bv32)
  }

  function DecodeOffset(word: bv32): bv32 {
    word & 0xF
  }

  function DecodeCommand(word: bv32): bv32 {
    (word >> 4) & 0xF
  }

  /** Decoded numbers are four bits wide. */
  lemma DecodeSmall(word: bv32)
    ensures DecodeOffset(word) as nat < 16 && DecodeCommand(word) as nat < 16
    ensures DecodeCommand(word) as nat < 10 <==> DecodeCommand(word) < 10
  {
  }

  /** Position of an offset counted from the start of the command-th entry. */
  function SeekPos(d: Dev, command: nat, offset: nat): nat {
    |Concat(Last(d.committed)[..Min(command, |Last(d.committed)|)])| + offset
  }

  /** The seek command: an out-of-range command is refused with the lock still held. */
  function IoctlCall(d: Dev, pos: nat, seekto: bool, first: bv8, garbage: bv32, fault: bool, interrupted: bool)
      : (Dev, Outcome, nat) {
    var word := ReceivedWord(first, garbage);
    if !seekto then (d, Error(EINVAL), pos)
    else if fault then (d, Error(EFAULT), pos)
    else if interrupted then (d, Error(ERESTARTSYS), pos)
    else if d.locked then (d, Hung, pos)
    else if DecodeCommand(word) >= 10 then (d.(locked := true), Error(EINVAL), pos)
    else (d, Count(0), SeekPos(d, DecodeCommand(word) as nat, DecodeOffset(word) as nat))
  }

  // ---- System calls --------------------------------------------------------

  type Fd = nat

  datatype AnyCall =
    | Open(fd: Fd)
    | Read(fd: Fd, count: nat, fault: bool, interrupted: bool)
    | Write(fd: Fd, data: seq<byte>, copied: nat, bufOk: bool, tempOk: bool, interrupted: bool)
    | Llseek(fd: Fd, off: int, whence: Whence, interrupted: bool)
    | Ioctl(fd: Fd, seekto: bool, first: bv8, garbage: bv32, fault: bool, interrupted: bool)

  /** A write of zero bytes is outside the driver's domain. */
  type Call = c: AnyCall | c.Write? ==> 0 < |c.data| && c.copied <= |c.data| witness Open(0)

  datatype Sys = Sys(dev: Dev, fpos: map<Fd, nat>)

  function Init(limit: nat): Sys {
    Sys(Dev(limit, [], [], false, 0, false), map[])
  }

  /** What the driver does for a call on a file at a position. */
  function Operate(d: Dev, pos: nat, c: Call): (Dev, Outcome, nat) {
    match c
    case Open(_) => (d, Count(0), pos)
    case Read(_, count, fault, interrupted) =>
      var r := ReadCall(d, pos, count, fault, interrupted);
      (d, r, pos + if r.Data? then |r.bytes| else 0)
    case Write(_, data, copied, bufOk, tempOk, interrupted) =>
      var (d', r) := WriteCall(d, data, copied, bufOk, tempOk, interrupted);
      (d', r, pos + if r.Count? then r.n else 0)
    case Llseek(_, off, whence, interrupted) =>
      var (r, pos') := LlseekCall(d, pos, off, whence, interrupted);
      (d, r, pos')
    case Ioctl(_, seekto, first, garbage, fault, interrupted) =>
      IoctlCall(d, pos, seekto, first, garbage, fault, interrupted)
  }

  function Step(s: Sys, c: Call): (r: (Sys, Outcome)) {
    if c.Open? then
      (if c.fd in s.fpos then s else s.(fpos := s.fpos[c.fd := 0]), Count(0))
    else if c.fd !in s.fpos then
      (s, Error(EBADF))
    else
      var (d', r, pos') := Operate(s.dev, s.fpos[c.fd], c);
      (Sys(d', s.fpos[c.fd := pos']), r)
  }

  /** The state after a run of calls. */
  function Run(s: Sys, calls: seq<Call>): Sys {
    if calls == [] then s else Step(Run(s, calls[..|calls| - 1]), calls[|calls| - 1]).0
  }

  lemma {:induction false} RunAppend(s: Sys, a: seq<Call>, b: seq<Call>)
    ensures Run(s, a + b) == Run(Run(s, a), b)
  {
    if b == [] {
      assert a + b == a;
    } else {
      assert (a + b)[..|a + b| - 1] == a + b[..|b| - 1];
      RunAppend(s, a, b[..|b| - 1]);
    }
  }
}
