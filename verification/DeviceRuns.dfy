/** What holds of the device over every run of system calls. */
module DeviceRuns {
  import opened Bytes
  import opened Positions
  import opened CircularBuffer
  import opened DeviceSpec

  // ---- Every entry is terminated, nonempty and bounded ---------------------

  /** Committing the pending bytes with a newline-terminated tail. */
  lemma InvCommit(d: Dev, got: seq<byte>)
    requires WellFormed(d.committed, d.limit) && EndsInNewline(d.pending + got) && |d.pending + got| <= d.limit
    ensures WellFormed(d.committed + [d.pending + got], d.limit)
  {
  }

  lemma StepInv(s: Sys, c: Call)
    requires s.dev.Inv()
    ensures Step(s, c).0.dev.Inv() && Step(s, c).0.dev.limit == s.dev.limit
  {
  }

  lemma {:induction false} RunInv(s: Sys, calls: seq<Call>)
    requires s.dev.Inv()
    ensures Run(s, calls).dev.Inv() && Run(s, calls).dev.limit == s.dev.limit
  {
    if calls != [] {
      RunInv(s, calls[..|calls| - 1]);
      StepInv(Run(s, calls[..|calls| - 1]), calls[|calls| - 1]);
    }
  }

  lemma {:induction false} EntryWellFormed(entries: seq<seq<byte>>, limit: nat, k: nat)
    requires WellFormed(entries, limit) && k < |entries|
    ensures |entries[k]| <= limit && EndsInNewline(entries[k])
  {
    if k < |entries| - 1 {
      EntryWellFormed(entries[..|entries| - 1], limit, k);
    }
  }

  /** The lookup meets its contract in every state that satisfies the invariant:
      the totals fit an int and the oldest live entry is nonempty. */
  lemma LookupConditions(d: Dev)
    requires d.Inv() && 10 * d.limit < TWO31
    ensures var sizes := Sizes(Last(d.committed));
            && Sum(sizes) < TWO31
            && (sizes == [] || 0 < sizes[0])
  {
    var live := Last(d.committed);
    forall k: nat | k < |live|
      ensures 0 < |live[k]| <= d.limit
    {
      EntryWellFormed(d.committed, d.limit, |d.committed| - |live| + k);
    }
    SumBound(Sizes(live), d.limit);
    AtMostTen(|live|, d.limit);
  }

  lemma AtMostTen(n: nat, limit: nat)
    requires n <= 10
    ensures n * limit <= 10 * limit
  {
  }

  /** Over every run, the driver's 32-bit scan finds, for every position, exactly
      the byte at that position of the readable content. */
  lemma LookupOverRuns(limit: nat, calls: seq<Call>, off: nat)
    requires 10 * limit < TWO31
    ensures var live := Last(Run(Init(limit), calls).dev.committed);
            var hit := Scan(Sizes(live), 0, 0, 0, off);
            && (hit == Miss <==> |Concat(live)| <= off)
            && (hit.At? ==> hit.index < |live| && hit.inner < |live[hit.index]|
                            && off < |Concat(live)| && live[hit.index][hit.inner] == Concat(live)[off])
  {
    RunInv(Init(limit), calls);
    var d := Run(Init(limit), calls).dev;
    var live := Last(d.committed);
    LookupConditions(d);
    ConcatSize(live);
    if Sizes(live) == [] { assert Sum(Sizes(live)) == 0; }
    ScanIsLocate(Sizes(live), off);
    LocateMissIff(Sizes(live), off);
    if off < |Concat(live)| {
      LocateByte(live, off);
    }
  }

  // ---- Conservation: what was accepted is what is stored --------------------

  /** The bytes of one successful write, and whether it ended its entry. */
  datatype Piece = Piece(bytes: seq<byte>, terminated: bool)

  /** The bytes of all the pieces, end to end. */
  function Joined(ps: seq<Piece>): seq<byte> {
    if ps == [] then [] else ps[0].bytes + Joined(ps[1..])
  }

  lemma {:induction false} JoinedAppend(a: seq<Piece>, b: seq<Piece>)
    ensures Joined(a + b) == Joined(a) + Joined(b)
  {
    if a == [] {
      assert a + b == b;
    } else {
      assert (a + b)[1..] == a[1..] + b;
      JoinedAppend(a[1..], b);
    }
  }

  /** The bytes that a write call reported as written. */
  function StoredBy(s: Sys, c: Call): seq<byte>
    requires c.Write?
  {
    var r := Step(s, c).1;
    if r.Count? && r.n <= |c.data| then c.data[..r.n] else []
  }

  /** A write that returned a count, judged by its caller's view alone. */
  function StepPiece(s: Sys, c: Call): seq<Piece> {
    var r := Step(s, c).1;
    if c.Write? && r.Count? && r.n <= |c.data| then
      [Piece(c.data[..r.n], r.n == |c.data| && EndsInNewline(c.data))]
    else []
  }

  /** The successful writes of a run, in order. */
  function Accepted(s: Sys, calls: seq<Call>): seq<Piece> {
    if calls == [] then []
    else
      var front, c := calls[..|calls| - 1], calls[|calls| - 1];
      Accepted(s, front) + StepPiece(Run(s, front), c)
  }

  /** How many pieces come before the first terminated one. */
  function Head(ps: seq<Piece>): (h: nat)
    ensures h <= |ps|
    ensures h < |ps| ==> ps[h].terminated
    ensures forall i :: 0 <= i < h ==> !ps[i].terminated
  {
    if ps == [] || ps[0].terminated then 0 else 1 + Head(ps[1..])
  }

  /** Reference framing: cut the pieces after each terminated one. */
  function Entries(carry: seq<byte>, ps: seq<Piece>): seq<seq<byte>>
    decreases |ps|
  {
    var h := Head(ps);
    if h == |ps| then [] else [carry + Joined(ps[..h + 1])] + Entries([], ps[h + 1..])
  }

  /** What is left after the last terminated piece. */
  function Tail(carry: seq<byte>, ps: seq<Piece>): seq<byte>
    decreases |ps|
  {
    var h := Head(ps);
    if h == |ps| then carry + Joined(ps) else Tail([], ps[h + 1..])
  }

  lemma HeadUnique(ps: seq<Piece>, h: nat)
    requires h <= |ps| && (h < |ps| ==> ps[h].terminated)
    requires forall i :: 0 <= i < h ==> !ps[i].terminated
    ensures Head(ps) == h
  {
  }

  /** The entry that a piece completes, after unfinished bytes. */
  function Closed(unfinished: seq<byte>, p: Piece): seq<seq<byte>> {
    if p.terminated then [unfinished + p.bytes] else []
  }

  /** What is unfinished after it. */
  function Left(unfinished: seq<byte>, p: Piece): seq<byte> {
    if p.terminated then [] else unfinished + p.bytes
  }

  /** One more accepted write, seen by the left-to-right framing. */
  lemma {:induction false} FramingSnoc(carry: seq<byte>, ps: seq<Piece>, p: Piece)
    ensures Entries(carry, ps + [p]) == Entries(carry, ps) + Closed(Tail(carry, ps), p)
    ensures Tail(carry, ps + [p]) == Left(Tail(carry, ps), p)
    decreases |ps|
  {
    if Head(ps) < |ps| {
      var rest := ps[Head(ps) + 1..];
      FramingSnoc([], rest, p);
      LaterEntry(carry, ps);
      SameFirst(carry, ps, p);
      Associates([carry + Joined(ps[..Head(ps) + 1])], Entries([], rest), Closed(Tail([], rest), p));
    } else {
      FirstEntry(carry, ps, p);
    }
  }

  /** Cutting off the first entry. */
  lemma LaterEntry(carry: seq<byte>, ps: seq<Piece>)
    requires Head(ps) < |ps|
    ensures Entries(carry, ps) == [carry + Joined(ps[..Head(ps) + 1])] + Entries([], ps[Head(ps) + 1..])
    ensures Tail(carry, ps) == Tail([], ps[Head(ps) + 1..])
  {
  }

  /** It is the same entry with one more piece at the end. */
  lemma SameFirst(carry: seq<byte>, ps: seq<Piece>, p: Piece)
    requires Head(ps) < |ps|
    ensures Entries(carry, ps + [p])
         == [carry + Joined(ps[..Head(ps) + 1])] + Entries([], ps[Head(ps) + 1..] + [p])
    ensures Tail(carry, ps + [p]) == Tail([], ps[Head(ps) + 1..] + [p])
  {
    var h := Head(ps);
    HeadUnique(ps + [p], h);
    assert (ps + [p])[..h + 1] == ps[..h + 1] && (ps + [p])[h + 1..] == ps[h + 1..] + [p];
    LaterEntry(carry, ps + [p]);
  }

  /** The same while no entry has been terminated. */
  lemma FirstEntry(carry: seq<byte>, ps: seq<Piece>, p: Piece)
    requires Head(ps) == |ps|
    ensures Entries(carry, ps) == [] && Entries(carry, ps + [p]) == Closed(Tail(carry, ps), p)
    ensures Tail(carry, ps + [p]) == Left(Tail(carry, ps), p)
  {
    var all := ps + [p];
    JoinedAppend(ps, [p]);
    assert Joined([p]) == p.bytes + Joined([]);
    assert carry + Joined(all) == (carry + Joined(ps)) + p.bytes;
    HeadUnique(all, if p.terminated then |ps| else |all|);
    if p.terminated {
      assert all[..|ps| + 1] == all;
      assert all[|ps| + 1..] == [];
    }
  }

  /** Storing one accepted piece, or none. */
  ghost predicate Stores(d: Dev, e: Dev, ps: seq<Piece>) {
    if ps == [] then e.committed == d.committed && e.pending == d.pending
    else
      && |ps| == 1
      && e.committed == d.committed + Closed(d.pending, ps[0])
      && e.pending == Left(d.pending, ps[0])
  }

  /** What one call does to the stored bytes: nothing unless it was accepted. */
  lemma StepStores(s: Sys, c: Call)
    ensures Stores(s.dev, Step(s, c).0.dev, StepPiece(s, c))
  {
  }

  lemma StoresFrames(start: Dev, d: Dev, e: Dev, ps: seq<Piece>, added: seq<Piece>)
    requires Stores(d, e, added)
    requires d.committed == start.committed + Entries(start.pending, ps) && d.pending == Tail(start.pending, ps)
    ensures e.committed == start.committed + Entries(start.pending, ps + added)
    ensures e.pending == Tail(start.pending, ps + added)
  {
    if added == [] {
      assert ps + added == ps;
    } else {
      assert added == [added[0]];
      FramingSnoc(start.pending, ps, added[0]);
    }
  }

  /** Refinement, from any state: the ring's history and the pending bytes are
      the reference framing of the successful writes, whatever allocations fail
      and whatever other calls are made in between. */
  lemma {:induction false} RunIsFraming(s: Sys, calls: seq<Call>)
    ensures Run(s, calls).dev.committed == s.dev.committed + Entries(s.dev.pending, Accepted(s, calls))
    ensures Run(s, calls).dev.pending == Tail(s.dev.pending, Accepted(s, calls))
  {
    if calls == [] {
      assert Joined([]) == [];
    } else {
      var front, c := calls[..|calls| - 1], calls[|calls| - 1];
      RunIsFraming(s, front);
      var m := Run(s, front);
      StepStores(m, c);
      StoresFrames(s.dev, m.dev, Step(m, c).0.dev, Accepted(s, front), StepPiece(m, c));
    }
  }

  function Terminated(ps: seq<Piece>): nat {
    if ps == [] then 0 else Terminated(ps[1..]) + if ps[0].terminated then 1 else 0
  }

  lemma {:induction false} TerminatedAppend(a: seq<Piece>, b: seq<Piece>)
    ensures Terminated(a + b) == Terminated(a) + Terminated(b)
  {
    if a == [] {
      assert a + b == b;
    } else {
      assert (a + b)[1..] == a[1..] + b;
      TerminatedAppend(a[1..], b);
    }
  }

  lemma ConcatCons(x: seq<byte>, xs: seq<seq<byte>>)
    ensures Concat([x] + xs) == x + Concat(xs)
  {
  }

  lemma Regroup(a: seq<byte>, b: seq<byte>, c: seq<byte>, d: seq<byte>)
    ensures ((a + b) + c) + d == a + (b + (c + d))
  {
  }

  /** The framing loses, duplicates and reorders nothing. */
  lemma {:induction false} FramingConserves(carry: seq<byte>, ps: seq<Piece>)
    ensures Concat(Entries(carry, ps)) + Tail(carry, ps) == carry + Joined(ps)
    decreases |ps|
  {
    var h := Head(ps);
    if h < |ps| {
      var rest := ps[h + 1..];
      FramingConserves([], rest);
      var first := Joined(ps[..h + 1]);
      assert ps == ps[..h + 1] + rest;
      JoinedAppend(ps[..h + 1], rest);
      ConcatCons(carry + first, Entries([], rest));
      assert Concat(Entries(carry, ps)) == (carry + first) + Concat(Entries([], rest));
      assert Tail(carry, ps) == Tail([], rest);
      Regroup(carry, first, Concat(Entries([], rest)), Tail([], rest));
      assert [] + Joined(rest) == Joined(rest);
    }
  }

  /** It makes one entry per terminated piece. */
  lemma {:induction false} FramingCounts(carry: seq<byte>, ps: seq<Piece>)
    ensures |Entries(carry, ps)| == Terminated(ps)
    decreases |ps|
  {
    if ps != [] {
      var front, p := ps[..|ps| - 1], ps[|ps| - 1];
      FramingCounts(carry, front);
      FramingSnoc(carry, front, p);
      TerminatedAppend(front, [p]);
      ClosedCount(Tail(carry, front), p);
      assert ps == front + [p];
    }
  }

  lemma ClosedCount(unfinished: seq<byte>, p: Piece)
    ensures |Closed(unfinished, p)| == Terminated([p])
  {
  }

  /** Conservation over every run from the loaded module: committed entries and
      pending bytes are the accepted bytes in order, one entry per terminated
      write, and the ring's view is the last ten of them. */
  lemma Conservation(limit: nat, calls: seq<Call>)
    ensures var d := Run(Init(limit), calls).dev;
            var ps := Accepted(Init(limit), calls);
            && d.committed == Entries([], ps)
            && Concat(d.committed) + d.pending == Joined(ps)
            && |d.committed| == Terminated(ps)
            && d.Gone() <= |Concat(d.committed)|
            && Concat(d.committed)[d.Gone()..] == d.Content()
  {
    StoredFromInit(limit, calls);
    BytesConserved(Accepted(Init(limit), calls));
    FramingCounts([], Accepted(Init(limit), calls));
    ContentIsSuffix(Run(Init(limit), calls).dev);
  }

  /** What a loaded module holds after a run. */
  lemma StoredFromInit(limit: nat, calls: seq<Call>)
    ensures Run(Init(limit), calls).dev.committed == Entries([], Accepted(Init(limit), calls))
    ensures Run(Init(limit), calls).dev.pending == Tail([], Accepted(Init(limit), calls))
  {
    RunIsFraming(Init(limit), calls);
  }

  lemma BytesConserved(ps: seq<Piece>)
    ensures Concat(Entries([], ps)) + Tail([], ps) == Joined(ps)
  {
    FramingConserves([], ps);
    assert [] + Joined(ps) == Joined(ps);
  }

  /** The readable content is the history without what was overwritten. */
  lemma ContentIsSuffix(d: Dev)
    ensures d.Gone() <= |Concat(d.committed)|
    ensures Concat(d.committed)[d.Gone()..] == d.Content()
  {
    var k := |d.committed| - |Last(d.committed)|;
    assert d.committed == d.committed[..k] + Last(d.committed);
    ConcatAppend(d.committed[..k], Last(d.committed));
  }

  // ---- Splitting writes ----------------------------------------------------

  function GoodWrite(fd: Fd, w: seq<byte>): Call
    requires w != []
  {
    Write(fd, w, |w|, true, true, false)
  }

  predicate CanWrite(s: Sys, fd: Fd, n: nat) {
    fd in s.fpos && !s.dev.locked && |s.dev.pending| + n <= s.dev.limit
    && (s.dev.stale ==> s.dev.pending == [])
  }

  /** A write may be replaced by two exactly when the first half does not end in
      a newline; then the whole state is the same, positions and leaks included. */
  lemma SplitWriteIff(s: Sys, fd: Fd, w1: seq<byte>, w2: seq<byte>)
    requires w1 != [] && w2 != [] && CanWrite(s, fd, |w1| + |w2|)
    ensures Run(s, [GoodWrite(fd, w1), GoodWrite(fd, w2)]) == Run(s, [GoodWrite(fd, w1 + w2)])
       <==> !EndsInNewline(w1)
  {
    var w := w1 + w2;
    var m := Step(s, GoodWrite(fd, w1)).0;
    var two := Step(m, GoodWrite(fd, w2)).0;
    var one := Step(s, GoodWrite(fd, w)).0;
    RunOne(s, GoodWrite(fd, w));
    RunTwo(s, GoodWrite(fd, w1), GoodWrite(fd, w2));
    assert w1[..|w1|] == w1 && w2[..|w2|] == w2 && w[..|w|] == w;
    if EndsInNewline(w1) {
      assert |two.dev.committed| > |one.dev.committed|;
    } else {
      assert s.dev.pending + w1 + w2 == s.dev.pending + w;
      assert two.fpos == one.fpos;
    }
  }

  lemma RunOne(s: Sys, c: Call)
    ensures Run(s, [c]) == Step(s, c).0
  {
  }

  lemma RunTwo(s: Sys, a: Call, b: Call)
    ensures Run(s, [a, b]) == Step(Step(s, a).0, b).0
  {
    assert [a, b][..1] == [a];
    RunOne(s, a);
  }

  function Writes(fd: Fd, frags: seq<seq<byte>>): (r: seq<Call>)
    requires forall i :: 0 <= i < |frags| ==> frags[i] != []
    ensures |r| == |frags|
  {
    seq(|frags|, i requires 0 <= i < |frags| => GoodWrite(fd, frags[i]))
  }

  /** Any number of fragments, none but the last ending in a newline, act as the
      one write of their concatenation. */
  lemma {:induction false} FragmentsAreOneWrite(s: Sys, fd: Fd, frags: seq<seq<byte>>)
    requires frags != [] && forall i :: 0 <= i < |frags| ==> frags[i] != []
    requires forall i :: 0 <= i < |frags| - 1 ==> !EndsInNewline(frags[i])
    requires CanWrite(s, fd, |Concat(frags)|)
    ensures Concat(frags) != []
    ensures EndsInNewline(Concat(frags)) <==> EndsInNewline(frags[|frags| - 1])
    ensures Run(s, Writes(fd, frags)) == Step(s, GoodWrite(fd, Concat(frags))).0
  {
    var front, last := frags[..|frags| - 1], frags[|frags| - 1];
    assert frags == front + [last];
    ConcatSnoc(front, last);
    if front == [] {
      assert Concat(frags) == last;
      assert Writes(fd, frags) == [GoodWrite(fd, last)];
      RunOne(s, GoodWrite(fd, last));
    } else {
      FragmentsAreOneWrite(s, fd, front);
      assert !EndsInNewline(front[|front| - 1]);
      assert Writes(fd, frags)[..|frags| - 1] == Writes(fd, front);
      var w := Concat(front);
      SplitWriteIff(s, fd, w, last);
      RunTwo(s, GoodWrite(fd, w), GoodWrite(fd, last));
      RunOne(s, GoodWrite(fd, w + last));
    }
  }

  // ---- The lock ------------------------------------------------------------

  /** A seek whose decoded command is out of range. */
  predicate OutOfRange(c: Call) {
    c.Ioctl? && c.seekto && !c.fault && !c.interrupted
    && DecodeCommand(ReceivedWord(c.first, c.garbage)) >= 10
  }

  /** Such a seek on an open file. */
  predicate LeavesLocked(s: Sys, c: Call) {
    OutOfRange(c) && c.fd in s.fpos
  }

  predicate LeavesLockedAt(s: Sys, calls: seq<Call>, i: nat)
    requires i < |calls|
  {
    LeavesLocked(Run(s, calls[..i]), calls[i])
  }

  lemma StepLocked(s: Sys, c: Call)
    ensures Step(s, c).0.dev.locked <==> s.dev.locked || LeavesLocked(s, c)
  {
  }

  /** The lock is held between calls if and only if some earlier call was a seek
      with an out-of-range command; nothing else ever leaves it held. */
  lemma {:induction false} LockedIff(s: Sys, calls: seq<Call>)
    requires !s.dev.locked
    ensures Run(s, calls).dev.locked
       <==> exists i :: 0 <= i < |calls| && LeavesLockedAt(s, calls, i)
  {
    if calls != [] {
      var n := |calls| - 1;
      var front := calls[..n];
      LockedIff(s, front);
      StepLocked(Run(s, front), calls[n]);
      forall i: nat | i < n ensures LeavesLockedAt(s, front, i) == LeavesLockedAt(s, calls, i) {
        assert front[..i] == calls[..i];
      }
      assert LeavesLockedAt(s, calls, n) == LeavesLocked(Run(s, front), calls[n]);
    }
  }

  /** Such a run: one seek with command ten on the freshly opened device, whatever the
      three bytes hold that do not come from the caller, and every later read hangs. */
  lemma LockingRun(limit: nat, garbage: bv32, after: seq<Call>, count: nat)
    ensures var s := Run(Init(limit), [Open(0), Ioctl(0, true, 0xA0, garbage, false, false)]);
            && s.dev.locked && Run(s, after).dev.locked
            && Step(Run(s, after), Read(0, count, false, false)).1 == Hung
  {
    var c := Ioctl(0, true, 0xA0, garbage, false, false);
    RunTwo(Init(limit), Open(0), c);
    assert DecodeCommand(ReceivedWord(0xA0, garbage)) == 10;
    LockedFreezes(Run(Init(limit), [Open(0), c]), after);
  }

  /** From then on nothing changes: no byte, no position, no leak. */
  lemma {:induction false} LockedFreezes(s: Sys, calls: seq<Call>)
    requires s.dev.locked
    ensures Run(s, calls).dev == s.dev
    ensures forall fd :: fd in s.fpos ==> fd in Run(s, calls).fpos && Run(s, calls).fpos[fd] == s.fpos[fd]
  {
    if calls != [] {
      LockedFreezes(s, calls[..|calls| - 1]);
    }
  }

  /** The calls that take the lock: all but opening, and an ioctl only when it is a
      seek whose argument could be read. */
  predicate TakesLock(c: Call) {
    c.Read? || c.Write? || c.Llseek? || (c.Ioctl? && c.seekto && !c.fault)
  }

  predicate Interrupted(c: Call) {
    !c.Open? && c.interrupted
  }

  /** Each of them then waits for ever unless it is interrupted. */
  lemma LockedStops(s: Sys, calls: seq<Call>, c: Call)
    requires s.dev.locked && TakesLock(c)
    ensures var m := Run(s, calls);
            Step(m, c).1 == if c.fd !in m.fpos then Error(EBADF)
                            else if !Interrupted(c) then Hung
                            else if c.Ioctl? then Error(ERESTARTSYS)
                            else Error(EINTR)
  {
    LockedFreezes(s, calls);
  }

  // ---- Leaked blocks -------------------------------------------------------

  /** A write that gets the lock and a block for its bytes. */
  predicate GetsBlock(s: Sys, c: Call) {
    c.Write? && c.fd in s.fpos && !c.interrupted && !s.dev.locked && c.bufOk && |c.data| <= s.dev.limit
  }

  /** Such a write when bytes are pending and there is no memory, or no block large
      enough, to merge them. */
  predicate FailedMerge(s: Sys, c: Call) {
    GetsBlock(s, c) && s.dev.pending != [] && (!c.tempOk || |s.dev.pending| + c.copied > s.dev.limit)
  }

  /** Such a write when nothing is pending and nothing can be copied either. */
  predicate EmptyStart(s: Sys, c: Call) {
    GetsBlock(s, c) && s.dev.pending == [] && c.copied == 0
  }

  /** What the caller of such a write is told. */
  lemma LeakResults(s: Sys, c: Call)
    requires c.Write?
    ensures FailedMerge(s, c) <==> c.bufOk && |c.data| <= s.dev.limit && Step(s, c).1 == Error(ENOMEM)
    ensures EmptyStart(s, c) <==> s.dev.pending == [] && Step(s, c).1 == Count(0)
  {
  }

  function CountFailedMerges(s: Sys, calls: seq<Call>): nat {
    if calls == [] then 0
    else
      var front, c := calls[..|calls| - 1], calls[|calls| - 1];
      CountFailedMerges(s, front) + if FailedMerge(Run(s, front), c) then 1 else 0
  }

  function CountEmptyStarts(s: Sys, calls: seq<Call>): nat {
    if calls == [] then 0
    else
      var front, c := calls[..|calls| - 1], calls[|calls| - 1];
      CountEmptyStarts(s, front) + if EmptyStart(Run(s, front), c) then 1 else 0
  }

  /** Blocks lost over any run: one per failed merge, and one per write that
      copied nothing into an empty pending entry, save the one still pending. */
  lemma {:induction false} LeaksOverRuns(limit: nat, calls: seq<Call>)
    ensures var d := Run(Init(limit), calls).dev;
            d.leaks + (if d.stale then 1 else 0)
            == CountFailedMerges(Init(limit), calls) + CountEmptyStarts(Init(limit), calls)
  {
    if calls != [] {
      var front, c := calls[..|calls| - 1], calls[|calls| - 1];
      LeaksOverRuns(limit, front);
      RunInv(Init(limit), front);
    }
  }

  /** When every user copy completes, exactly the failed merges leak. */
  lemma {:induction false} LeaksAreFailedMerges(limit: nat, calls: seq<Call>)
    requires forall c :: c in calls && c.Write? ==> c.copied == |c.data|
    ensures Run(Init(limit), calls).dev.leaks == CountFailedMerges(Init(limit), calls)
    ensures !Run(Init(limit), calls).dev.stale
  {
    if calls != [] {
      var front, c := calls[..|calls| - 1], calls[|calls| - 1];
      LeaksAreFailedMerges(limit, front);
      assert c in calls;
    }
  }

  /** A leaked block is never recovered. */
  lemma {:induction false} LeaksStay(s: Sys, calls: seq<Call>)
    ensures s.dev.leaks <= Run(s, calls).dev.leaks
  {
    if calls != [] {
      LeaksStay(s, calls[..|calls| - 1]);
    }
  }

  /** A leaking run: one byte is pending, and the block for a second one is lost when
      there is no memory to merge them, whatever calls follow. */
  lemma LeakingRun(limit: nat, after: seq<Call>)
    requires 0 < limit
    ensures var calls := [Open(0), GoodWrite(0, [65]), Write(0, [66], 1, true, false, false)];
            && Run(Init(limit), calls).dev.leaks == 1
            && 1 <= Run(Init(limit), calls + after).dev.leaks
  {
    var calls := [Open(0), GoodWrite(0, [65]), Write(0, [66], 1, true, false, false)];
    assert calls[..2][..1] == [Open(0)] && calls[..2] == [Open(0), GoodWrite(0, [65])];
    RunTwo(Init(limit), Open(0), GoodWrite(0, [65]));
    var s := Run(Init(limit), calls[..2]);
    assert s.dev.pending == [65];
    RunAppend(Init(limit), calls, after);
    LeaksStay(Run(Init(limit), calls), after);
  }
}
