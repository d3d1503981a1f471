/** What each system call answers, what it stores, and where it leaves the files. */
module CallLaws {
  import opened Bytes
  import opened Positions
  import opened CircularBuffer
  import opened DeviceSpec
  import opened DeviceRuns
  import opened Readers

  // ---- Every call ---------------------------------------------------------------------------

  /** A call on a file that is not open changes nothing. */
  lemma UnopenedFails(s: Sys, c: Call)
    requires !c.Open? && c.fd !in s.fpos
    ensures Step(s, c) == (s, Error(EBADF))
  {
  }

  /** A file starts at position zero; opening it again leaves it where it is. */
  lemma OpenStarts(s: Sys, fd: Fd)
    ensures var (t, r) := Step(s, Open(fd));
            && r == Count(0) && t.dev == s.dev
            && fd in t.fpos && t.fpos[fd] == if fd in s.fpos then s.fpos[fd] else 0
  {
  }

  /** No call touches the position of any other file. */
  lemma OtherFilesStay(s: Sys, c: Call, g: Fd)
    requires g != c.fd
    ensures g in Step(s, c).0.fpos <==> g in s.fpos
    ensures g in s.fpos ==> Step(s, c).0.fpos[g] == s.fpos[g]
  {
  }

  lemma SamePosition(fpos: map<Fd, nat>, fd: Fd)
    requires fd in fpos
    ensures fpos[fd := fpos[fd]] == fpos
  {
  }

  /** A call whose wait for the lock is interrupted says so and changes nothing, whether
      the device is locked or not. */
  lemma InterruptedStays(s: Sys, c: Call)
    requires TakesLock(c) && c.fd in s.fpos && Interrupted(c)
    ensures Step(s, c) == (s, Error(if c.Ioctl? then ERESTARTSYS else EINTR))
  {
    SamePosition(s.fpos, c.fd);
  }

  /** One that waits for a locked device never returns and changes nothing. */
  lemma LockedWaits(s: Sys, c: Call)
    requires TakesLock(c) && c.fd in s.fpos && !Interrupted(c) && s.dev.locked
    ensures Step(s, c) == (s, Hung)
  {
    SamePosition(s.fpos, c.fd);
  }

  // ---- write ----------------------------------------------------------------------------------

  /** Everything the device has been given and kept. */
  function Store(d: Dev): seq<byte> {
    Concat(d.committed) + d.pending
  }

  /** A write on an unlocked device is refused exactly when there is no block for its bytes,
      or bytes are pending and there is none to merge them in; otherwise it reports what
      could be copied, and that is what is stored. */
  lemma WriteAnswers(s: Sys, c: Call)
    requires c.Write? && c.fd in s.fpos && !c.interrupted && !s.dev.locked
    ensures var refused := || !c.bufOk || |c.data| > s.dev.limit
                           || (s.dev.pending != [] && (!c.tempOk || |s.dev.pending| + c.copied > s.dev.limit));
            if refused then Step(s, c).1 == Error(ENOMEM) && StoredBy(s, c) == []
            else Step(s, c).1 == Count(c.copied) && StoredBy(s, c) == c.data[..c.copied]
  {
  }

  /** Every write on an open file moves that file by exactly the number of bytes by which
      the store grows. */
  lemma WriteMoves(s: Sys, c: Call)
    requires c.Write? && c.fd in s.fpos
    ensures var t := Step(s, c).0;
            && c.fd in t.fpos && t.fpos[c.fd] == s.fpos[c.fd] + |StoredBy(s, c)|
            && Store(t.dev) == Store(s.dev) + StoredBy(s, c)
  {
    var d, e := s.dev, Step(s, c).0.dev;
    StepStores(s, c);
    var x := StoredBy(s, c);
    Associates(Concat(d.committed), d.pending, x);
    if e.committed != d.committed {
      ConcatSnoc(d.committed, d.pending + x);
      assert Store(e) == Concat(e.committed) + [] == Concat(e.committed);
    }
  }

  /** The bytes accepted from writes through one open file, in order. */
  function Passed(s: Sys, calls: seq<Call>, fd: Fd): seq<byte> {
    if calls == [] then []
    else
      var front, c := calls[..|calls| - 1], calls[|calls| - 1];
      Passed(s, front, fd) + if c.Write? && c.fd == fd then StoredBy(Run(s, front), c) else []
  }

  ghost predicate OnlyTransfers(calls: seq<Call>, fd: Fd) {
    forall c :: c in calls && c.fd == fd ==> c.Read? || c.Write? || c.Open?
  }

  /** Over any run a file used for reads and writes ends where it began, plus the bytes
      delivered through it, plus the bytes accepted through it. */
  lemma {:induction false} FilePosition(s: Sys, calls: seq<Call>, fd: Fd)
    requires fd in s.fpos && OnlyTransfers(calls, fd)
    ensures var e := Run(s, calls);
            fd in e.fpos && e.fpos[fd] == s.fpos[fd] + |Delivered(s, calls, fd)| + |Passed(s, calls, fd)|
  {
    if calls != [] {
      var front, c := calls[..|calls| - 1], calls[|calls| - 1];
      assert c in calls;
      FilePosition(s, front, fd);
      TransferMoves(Run(s, front), c, fd);
    }
  }

  lemma TransferMoves(m: Sys, c: Call, fd: Fd)
    requires fd in m.fpos && (c.fd == fd ==> c.Read? || c.Write? || c.Open?)
    ensures fd in Step(m, c).0.fpos
    ensures Step(m, c).0.fpos[fd]
         == m.fpos[fd] + |Got(m, c, fd)| + if c.Write? && c.fd == fd then |StoredBy(m, c)| else 0
  {
    if c.Write? && c.fd == fd {
      WriteMoves(m, c);
    } else {
      StepReader(m, c, fd);
    }
  }

  // ---- read -----------------------------------------------------------------------------------

  /** A read at or past the end gives nothing; any other gives as much as was asked for up
      to the end of the entry its position is in, and fails if that is something and the
      caller cannot take it. The file moves by what was given. */
  lemma ReadGives(s: Sys, c: Call) returns (k: nat)
    requires c.Read? && c.fd in s.fpos && !c.interrupted && !s.dev.locked
    ensures var (t, r) := Step(s, c);
            && t.dev == s.dev && c.fd in t.fpos
            && t.fpos[c.fd] == s.fpos[c.fd] + if r.Data? then |r.bytes| else 0
    ensures var (live, content, pos) := (Last(s.dev.committed), s.dev.Content(), s.fpos[c.fd]);
            if |content| <= pos then Step(s, c).1 == Data([])
            else
              && k < |live| && |Concat(live[..k])| <= pos < |Concat(live[..k + 1])| <= |content|
              && var n := Min(|Concat(live[..k + 1])| - pos, c.count);
                 Step(s, c).1 == if c.fault && 0 < n then Error(EFAULT) else Data(content[pos..pos + n])
  {
    k := 0;
    if s.fpos[c.fd] < |s.dev.Content()| {
      k := InsideGives(s.dev, s.fpos[c.fd], c.count, c.fault);
    } else {
      PastGives(s.dev, s.fpos[c.fd], c.count, c.fault);
    }
  }

  lemma PastGives(d: Dev, pos: nat, count: nat, fault: bool)
    requires |d.Content()| <= pos
    ensures ReadDev(d, pos, count, fault) == Data([])
  {
    ConcatSize(Last(d.committed));
    LocateMissIff(Sizes(Last(d.committed)), pos);
  }

  lemma InsideGives(d: Dev, pos: nat, count: nat, fault: bool) returns (k: nat)
    requires pos < |d.Content()|
    ensures var live := Last(d.committed);
            && k < |live| && |Concat(live[..k])| <= pos < |Concat(live[..k + 1])| <= |d.Content()|
            && var n := Min(|Concat(live[..k + 1])| - pos, count);
               ReadDev(d, pos, count, fault)
                 == if fault && 0 < n then Error(EFAULT) else Data(d.Content()[pos..pos + n])
  {
    var live := Last(d.committed);
    k := ReadInside(live, pos);
    LocateSlice(live, pos, Min(|Concat(live[..k + 1])| - pos, count));
  }

  /** The entry that a position is in. */
  lemma ReadInside(live: seq<seq<byte>>, pos: nat) returns (k: nat)
    requires pos < |Concat(live)|
    ensures k < |live| && |Concat(live[..k])| <= pos < |Concat(live[..k + 1])| <= |Concat(live)|
    ensures Locate(Sizes(live), pos) == At(k, pos - |Concat(live[..k])|)
    ensures |Concat(live[..k + 1])| == |Concat(live[..k])| + |live[k]|
  {
    LocateBlock(live, pos);
    k := Locate(Sizes(live), pos).index;
    assert live[..k + 1] == live[..k] + [live[k]];
    ConcatSnoc(live[..k], live[k]);
  }

  // ---- ioctl ----------------------------------------------------------------------------------

  /** Of the caller's word only the lowest byte counts: its upper half is the command, its
      lower half the offset. */
  lemma ByteDecodes(first: bv8, garbage: bv32)
    ensures DecodeCommand(ReceivedWord(first, garbage)) == (first as bv32) >> 4
    ensures DecodeOffset(ReceivedWord(first, garbage)) == (first as bv32) & 0xF
    ensures (first as bv32) >> 4 < 16 && (first as bv32) & 0xF < 16
  {
  }

  /** The call is the seek command, its copy succeeds and its wait is not interrupted. */
  predicate SeekReaches(c: Call) {
    c.Ioctl? && c.seekto && !c.fault && !c.interrupted
  }

  /** An ioctl on an open file succeeds if and only if it is a seek command that reaches an
      unlocked device with a command below ten; every other case has its own error. */
  lemma IoctlAnswers(s: Sys, c: Call)
    requires c.Ioctl? && c.fd in s.fpos
    ensures var r := Step(s, c).1;
            var command := (c.first as bv32) >> 4;
            && (r == Count(0) <==> SeekReaches(c) && !s.dev.locked && command < 10)
            && (!c.seekto ==> r == Error(EINVAL))
            && (c.seekto && c.fault ==> r == Error(EFAULT))
            && (c.seekto && !c.fault && c.interrupted ==> r == Error(ERESTARTSYS))
            && (SeekReaches(c) && s.dev.locked ==> r == Hung)
            && (SeekReaches(c) && !s.dev.locked && command >= 10 ==> r == Error(EINVAL))
  {
    ByteDecodes(c.first, c.garbage);
  }

  /** It changes no byte and no leak, and locks the device exactly when it reaches it with a
      command of ten or more. */
  lemma IoctlLocks(s: Sys, c: Call)
    requires c.Ioctl? && c.fd in s.fpos
    ensures Step(s, c).0.dev
         == s.dev.(locked := s.dev.locked || (SeekReaches(c) && (c.first as bv32) >> 4 >= 10))
  {
    ByteDecodes(c.first, c.garbage);
  }

  /** Where a seek goes: the offset behind the entries before the command, or behind all of
      the content if there are fewer. */
  lemma SeekGoes(d: Dev, command: nat, offset: nat)
    ensures var live := Last(d.committed);
            SeekPos(d, command, offset)
              == offset + if command <= |live| then |Concat(live[..command])| else |d.Content()|
  {
    var live := Last(d.committed);
    if |live| < command {
      assert live[..|live|] == live;
    }
  }

  /** An ioctl that fails moves no file; one that succeeds moves its own to where the two
      halves of the byte say. */
  lemma IoctlMoves(s: Sys, c: Call)
    requires c.Ioctl? && c.fd in s.fpos
    ensures var (t, r) := Step(s, c);
            && (r != Count(0) ==> t.fpos == s.fpos)
            && (r == Count(0) ==>
                  var (command, offset) := ((c.first as bv32) >> 4, (c.first as bv32) & 0xF);
                  t.fpos == s.fpos[c.fd := SeekPos(s.dev, command as nat, offset as nat)])
  {
    ByteDecodes(c.first, c.garbage);
    SamePosition(s.fpos, c.fd);
  }
}
