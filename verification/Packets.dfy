/** Which packets arrive whole: connections served one at a time, runs in which every
    write fits, what chunks of different connections do to each other, and which replies
    still contain a packet. */
module Packets {
  import opened Bytes
  import opened CircularBuffer
  import opened Positions
  import opened DeviceSpec
  import opened DeviceRuns
  import opened Readers
  import opened Extraction
  import opened Framing
  import opened Delivery

  // ---- One connection at a time ----------------------------------------------------------

  /** The same server with nothing logged yet. */
  function Blank(s: Server): Server {
    s.(log := [])
  }

  /** The log only records. */
  lemma {:induction false} LogShift(s: Server, evs: seq<Event>)
    ensures var (e, b) := (After(s, evs), After(Blank(s), evs));
            e.sys == b.sys && e.conns == b.conns && e.log == s.log + b.log
    ensures Runs(s, evs) <==> Runs(Blank(s), evs)
  {
    if evs == [] {
      assert s.log + [] == s.log;
    } else {
      var front, ev := evs[..|evs| - 1], evs[|evs| - 1];
      LogShift(s, front);
      NextShift(After(s, front), After(Blank(s), front), s.log, ev);
    }
  }

  lemma NextShift(m: Server, b: Server, log: seq<Line>, ev: Event)
    requires m.sys == b.sys && m.conns == b.conns && m.log == log + b.log
    ensures Enabled(m, ev) <==> Enabled(b, ev)
    ensures Fits(m, ev) <==> Fits(b, ev)
    ensures Enabled(m, ev) ==>
              var (e, f) := (Next(m, ev), Next(b, ev));
              e.sys == f.sys && e.conns == f.conns && e.log == log + f.log
  {
    if Enabled(m, ev) && ev.Receive? {
      Associates(log, b.log, LinesOf(ev.conn, m.sys, ReceiveCalls(m.conns[ev.conn], ev.turn)));
    }
  }

  /** A log without newline leaves everything pending. */
  lemma {:induction false} QuietTail(log: seq<Line>)
    requires Whole(log) && NEWLINE !in LogBytes(log)
    ensures Entries([], Pieces(log)) == [] && Tail([], Pieces(log)) == LogBytes(log)
  {
    if log == [] {
      assert Joined([]) == [];
    } else {
      var front, line := log[..|log| - 1], log[|log| - 1];
      assert NEWLINE !in LogBytes(front) && NEWLINE !in line.stored;
      QuietTail(front);
      NoNewlineEnds(line.data);
      FramingSnoc([], Pieces(front), PieceOf(line));
    }
  }

  /** A log whose only newline is its last byte is one entry. */
  lemma OnePacket(log: seq<Line>)
    requires Whole(log) && Sensible(log) && EndsInNewline(LogBytes(log)) && NewlineLast(LogBytes(log))
    ensures Entries([], Pieces(log)) == [LogBytes(log)] && Tail([], Pieces(log)) == []
  {
    var front, line := log[..|log| - 1], log[|log| - 1];
    QuietFront(LogBytes(front), line.data);
    QuietTail(front);
    EndsLater(LogBytes(front), line.data);
    FramingSnoc([], Pieces(front), PieceOf(line));
  }

  /** End to end: when nothing is pending and a connection's chunks arrive with no
      other connection's chunk in between, its packet, cut by the network and by
      stdio in any way, becomes exactly one entry, and nothing is left pending. */
  lemma PacketCommits(s: Server, evs: seq<Event>, c: nat, chunks: seq<seq<byte>>)
    requires s.sys.dev.Inv() && s.sys.dev.pending == []
    requires c < |s.conns| && s.conns[c] == NewConn(chunks) && Alone(evs, c) && Runs(s, evs)
    requires c < |After(s, evs).conns| && Done(After(s, evs).conns[c])
    ensures var d := After(s, evs).sys.dev;
            && d.committed == s.sys.dev.committed + [Sent(chunks)]
            && d.pending == []
    ensures var packet := UpToNewline(Concat(chunks)); Sent(chunks) == packet <==> NUL !in packet
  {
    LogShift(s, evs);
    var e := After(Blank(s), evs);
    AloneWhole(Blank(s), evs, c, chunks);
    FramedEmpty(s.sys.dev);
    ServerFraming(s.sys.dev, Blank(s), evs);
    OnePacket(e.log);
    ChunkingIndependentIff(chunks);
  }

  lemma AloneWhole(s: Server, evs: seq<Event>, c: nat, chunks: seq<seq<byte>>)
    requires s.log == [] && s.sys.dev.Inv() && Alone(evs, c) && Runs(s, evs)
    requires c < |s.conns| && s.conns[c] == NewConn(chunks)
    requires c < |After(s, evs).conns| && Done(After(s, evs).conns[c])
    ensures var log := After(s, evs).log;
            Whole(log) && Sensible(log) && LogBytes(log) == Sent(chunks)
    ensures EndsInNewline(Sent(chunks)) && NewlineLast(Sent(chunks))
  {
    var e := After(s, evs);
    NewOk(chunks);
    ConnAfter(s, evs, c);
    AloneLines(s, evs, c);
    OnlyLines(e.log, c, c);
    RunsHappens(s, evs);
    RunsIff(s, evs);
    SensibleAfter(s, evs);
    ShareWholeIff(e.log, c);
    WholeOnly(e.log, c, c);
    SentPrefix(chunks, e.conns[c].kept);
    SentShape(chunks);
  }

  // ---- Which replies contain a packet -----------------------------------------------------------

  /** The reply to the packet that was just committed, with nobody in between: a fresh
      descriptor read to the end delivers the last ten entries, the packet last. */
  lemma PacketEchoed(s: Server, evs: seq<Event>, c: nat, chunks: seq<seq<byte>>, fd: Fd, counts: seq<nat>, last: nat)
    requires s.sys.dev.Inv() && s.sys.dev.pending == []
    requires c < |s.conns| && s.conns[c] == NewConn(chunks) && Alone(evs, c) && Runs(s, evs)
    requires c < |After(s, evs).conns| && Done(After(s, evs).conns[c])
    requires fd !in After(s, evs).sys.fpos && 0 < last
    requires ReadsAll(After(s, evs).sys, fd, counts, last)
    ensures Reply(After(s, evs).sys, fd, counts) == Concat(Last(s.sys.dev.committed + [Sent(chunks)]))
  {
    PacketCommits(s, evs, c, chunks);
    ReplyIsContent(After(s, evs).sys, fd, counts, last);
  }

  /** What reading a freshly opened file gives. */
  function Reply(s: Sys, fd: Fd, counts: seq<nat>): seq<byte> {
    Delivered(Step(s, Open(fd)).0, Reads(fd, counts), fd)
  }

  /** After these reads one more would return nothing. */
  predicate ReadsAll(s: Sys, fd: Fd, counts: seq<nat>, last: nat) {
    var o := Step(s, Open(fd)).0;
    Step(Run(o, Reads(fd, counts)), Read(fd, last, false, false)).1 == Data([])
  }

  lemma ReplyIsContent(s: Sys, fd: Fd, counts: seq<nat>, last: nat)
    requires fd !in s.fpos && 0 < last && ReadsAll(s, fd, counts, last)
    ensures Reply(s, fd, counts) == s.dev.Content()
  {
    ReadToEnd(Step(s, Open(fd)).0, fd, counts, last);
    assert Drop(s.dev.Content(), 0) == s.dev.Content();
  }

  /** What a reply says of the last entry of device d once d has become e. It contains that
      entry if and only if fewer than ten further ones were committed; otherwise every
      byte of it has been overwritten. */
  ghost predicate Echoed(d: Dev, e: Dev, further: nat, reply: seq<byte>)
    requires d.committed != []
  {
    var n := |d.committed| - 1;
    && d.committed <= e.committed && |e.committed| == n + 1 + further
    && reply == Concat(Last(e.committed))
    && (e.Evicted() <= n <==> further < CAPACITY)
    && if further < CAPACITY then SliceAt(reply, |Concat(e.committed[e.Evicted()..n])|, d.committed[n])
       else |Concat(e.committed[..n + 1])| <= e.Gone()
  }

  lemma EntryReadable(d: Dev, e: Dev, further: nat)
    requires d.committed != [] && d.committed <= e.committed && |e.committed| == |d.committed| + further
    ensures Echoed(d, e, further, e.Content())
  {
    var n := |d.committed| - 1;
    assert e.committed[n] == d.committed[n];
    if further < CAPACITY {
      StillThere(e.committed, e.Evicted(), n);
      assert Last(e.committed) == e.committed[e.Evicted()..];
    } else {
      LongGone(e.committed, e.Evicted(), n);
    }
  }

  /** An entry among the last ones. */
  lemma StillThere(entries: seq<seq<byte>>, k: nat, n: nat)
    requires k <= n < |entries|
    ensures SliceAt(Concat(entries[k..]), |Concat(entries[k..n])|, entries[n])
  {
    ConcatMiddle(entries, k, n, |entries|);
    assert entries[n..] == [entries[n]] + entries[n + 1..];
    ConcatCons(entries[n], entries[n + 1..]);
    assert entries[n..|entries|] == entries[n..] && entries[k..|entries|] == entries[k..];
    MiddleAt(Concat(entries[k..n]), entries[n], Concat(entries[n + 1..]));
  }

  lemma MiddleAt(a: seq<byte>, b: seq<byte>, c: seq<byte>)
    ensures SliceAt(a + (b + c), |a|, b)
  {
  }

  /** An entry among the first ones. */
  lemma LongGone(entries: seq<seq<byte>>, k: nat, n: nat)
    requires n < k <= |entries|
    ensures |Concat(entries[..n + 1])| <= |Concat(entries[..k])|
  {
    ConcatMiddle(entries, 0, n + 1, k);
    assert entries[0..n + 1] == entries[..n + 1] && entries[0..k] == entries[..k];
  }

  /** The reply in any interleaving. A connection's newline commits an entry; whatever
      everybody does from then until the connection reads, and whatever is refused, the
      reply contains that entry if and only if fewer than ten further newlines have ended
      entries by then. */
  lemma EchoIff(s: Server, c: nat, t: Turn, evs: seq<Event>, fd: Fd, counts: seq<nat>, last: nat)
    requires Enabled(s, Receive(c, t)) && s.sys.dev.Inv()
    requires var m := Next(s, Receive(c, t));
             && |s.sys.dev.committed| < |m.sys.dev.committed|
             && fd !in After(m, evs).sys.fpos && 0 < last && ReadsAll(After(m, evs).sys, fd, counts, last)
    ensures var m := Next(s, Receive(c, t));
            Echoed(m.sys.dev, After(m, evs).sys.dev, Terminated(Pieces(After(Blank(m), evs).log)),
                   Reply(After(m, evs).sys, fd, counts))
  {
    RunInv(s.sys, ReceiveCalls(s.conns[c], t));
    EchoLater(Next(s, Receive(c, t)), evs, fd, counts, last);
  }

  /** The same from the moment after the commit. */
  lemma EchoLater(m: Server, evs: seq<Event>, fd: Fd, counts: seq<nat>, last: nat)
    requires m.sys.dev.Inv() && m.sys.dev.committed != []
    requires fd !in After(m, evs).sys.fpos && 0 < last && ReadsAll(After(m, evs).sys, fd, counts, last)
    ensures Echoed(m.sys.dev, After(m, evs).sys.dev, Terminated(Pieces(After(Blank(m), evs).log)),
                   Reply(After(m, evs).sys, fd, counts))
  {
    AfterDevice(m, evs);
    AfterCounts(m, evs);
    ReplyIsContent(After(m, evs).sys, fd, counts, last);
    EntryReadable(m.sys.dev, After(m, evs).sys.dev, Terminated(Pieces(After(Blank(m), evs).log)));
  }

  /** One entry for every line that ended one. */
  lemma AfterCounts(s: Server, evs: seq<Event>)
    ensures |After(s, evs).sys.dev.committed|
         == |s.sys.dev.committed| + Terminated(Pieces(After(Blank(s), evs).log))
  {
    LogShift(s, evs);
    FramedEmpty(s.sys.dev);
    ServerFraming(s.sys.dev, Blank(s), evs);
    FramingCounts(s.sys.dev.pending, Pieces(After(Blank(s), evs).log));
  }

  // ---- When every write fits --------------------------------------------------------------

  /** What a connection may still send. */
  function Remaining(conn: Conn): nat {
    if conn.got <= |conn.chunks| then |Concat(conn.chunks[conn.got..])| else 0
  }

  function Outstanding(conns: seq<Conn>): nat {
    if conns == [] then 0 else Outstanding(conns[..|conns| - 1]) + Remaining(conns[|conns| - 1])
  }

  /** What the connections accepted during a run may send. */
  function Promised(evs: seq<Event>): nat {
    if evs == [] then 0
    else
      var ev := evs[|evs| - 1];
      Promised(evs[..|evs| - 1]) + if ev.Accept? then |Concat(ev.chunks)| else 0
  }

  /** Nobody else seeks out of range. */
  ghost predicate NeverLocks(evs: seq<Event>) {
    evs == [] || (NeverLocks(evs[..|evs| - 1]) && !Locks(evs[|evs| - 1]))
  }

  ghost predicate Locks(ev: Event) {
    ev.Others? && exists i :: 0 <= i < |ev.calls| && OutOfRange(ev.calls[i])
  }

  lemma {:induction false} StaysUnlocked(s: Sys, calls: seq<Call>)
    requires !s.dev.locked && forall i :: 0 <= i < |calls| ==> !OutOfRange(calls[i])
    ensures !Run(s, calls).dev.locked
  {
    if calls != [] {
      StaysUnlocked(s, calls[..|calls| - 1]);
      StepLocked(Run(s, calls[..|calls| - 1]), calls[|calls| - 1]);
    }
  }

  lemma {:induction false} QuietRun(s: Sys, calls: seq<Call>)
    requires forall i :: 0 <= i < |calls| ==> !calls[i].Write?
    ensures var d := Run(s, calls).dev;
            d.committed == s.dev.committed && d.pending == s.dev.pending && d.stale == s.dev.stale
  {
    if calls != [] {
      QuietRun(s, calls[..|calls| - 1]);
    }
  }

  /** A pass whose chunk the device takes. */
  ghost predicate Writing(s: Server, c: nat, t: Turn) {
    Enabled(s, Receive(c, t)) && Fits(s, Receive(c, t)) && !ReceiveConn(s.conns[c], t).sought
  }

  lemma WritingAppends(s: Server, c: nat, t: Turn)
    requires Writing(s, c, t) && s.sys.dev.Inv()
    ensures AppendsText(s.sys.dev, Next(s, Receive(c, t)).sys.dev, Payload(s.conns[c].chunks[s.conns[c].got]))
  {
    var text := Payload(s.conns[c].chunks[s.conns[c].got]);
    TurnWholeIff(c, s.sys, t, s.conns[c].chunks[s.conns[c].got]);
    if text != [] {
      assert t.frags != [];
      AppendedText(s.sys.dev, text);
    } else {
      EmptyAppends(s.sys.dev);
    }
  }

  lemma OutstandingSnoc(conns: seq<Conn>, conn: Conn)
    ensures Outstanding(conns + [conn]) == Outstanding(conns) + Remaining(conn)
  {
  }

  lemma {:induction false} OutstandingUpdate(conns: seq<Conn>, c: nat, conn: Conn)
    requires c < |conns|
    ensures Outstanding(conns[c := conn]) == Outstanding(conns) - Remaining(conns[c]) + Remaining(conn)
    ensures Remaining(conns[c]) <= Outstanding(conns)
  {
    var n := |conns| - 1;
    if c < n {
      OutstandingUpdate(conns[..n], c, conn);
      assert conns[c := conn][..n] == conns[..n][c := conn];
    } else {
      assert conns[c := conn][..n] == conns[..n];
    }
  }

  /** So it is for every turn of a run. */
  ghost predicate AllWilling(evs: seq<Event>) {
    evs == [] || (AllWilling(evs[..|evs| - 1]) && (evs[|evs| - 1].Receive? ==> Willing(evs[|evs| - 1].turn)))
  }

  /** A chunk received is no longer to come. */
  lemma RemainingNext(conn: Conn, t: Turn)
    requires conn.got < |conn.chunks|
    ensures Remaining(conn) == |conn.chunks[conn.got]| + Remaining(ReceiveConn(conn, t))
    ensures |Payload(conn.chunks[conn.got])| <= |conn.chunks[conn.got]|
  {
    assert conn.chunks[conn.got..] == [conn.chunks[conn.got]] + conn.chunks[conn.got + 1..];
    ConcatCons(conn.chunks[conn.got], conn.chunks[conn.got + 1..]);
    PayloadShape(conn.chunks[conn.got]);
  }

  /** The device is not locked and has room for its pending bytes and n more. */
  ghost predicate Budget(s: Server, n: nat) {
    && !s.sys.dev.locked && (s.sys.dev.stale ==> s.sys.dev.pending == [])
    && |s.sys.dev.pending| + Outstanding(s.conns) <= n <= s.sys.dev.limit
  }

  lemma BudgetReceive(s: Server, c: nat, t: Turn, n: nat)
    requires Budget(s, n) && Enabled(s, Receive(c, t)) && Willing(t) && s.sys.dev.Inv()
    ensures Fits(s, Receive(c, t)) && Budget(Next(s, Receive(c, t)), n)
  {
    RemainingNext(s.conns[c], t);
    OutstandingUpdate(s.conns, c, ReceiveConn(s.conns[c], t));
    if !ReceiveConn(s.conns[c], t).sought {
      WillingTakes(s.sys.dev, t);
      WritingAppends(s, c, t);
    }
  }

  lemma BudgetStep(s: Server, ev: Event, n: nat)
    requires Budget(s, n) && Enabled(s, ev) && !Locks(ev) && (ev.Receive? ==> Willing(ev.turn)) && s.sys.dev.Inv()
    requires n + (if ev.Accept? then |Concat(ev.chunks)| else 0) <= s.sys.dev.limit
    ensures Fits(s, ev) && Budget(Next(s, ev), n + if ev.Accept? then |Concat(ev.chunks)| else 0)
    ensures Next(s, ev).sys.dev.limit == s.sys.dev.limit
  {
    match ev
    case Accept(chunks) =>
      OutstandingSnoc(s.conns, NewConn(chunks));
      assert chunks[0..] == chunks;
    case Receive(c, t) =>
      BudgetReceive(s, c, t, n);
      RunInv(s.sys, ReceiveCalls(s.conns[c], t));
    case HangUp(c) =>
      OutstandingUpdate(s.conns, c, s.conns[c].(open := false));
    case Others(calls) =>
      QuietRun(s.sys, calls);
      RunInv(s.sys, calls);
      StaysUnlocked(s.sys, calls);
  }

  /** Every write of every interleaving is stored whole, if what is pending and all that
      the connections may send together are within the allocation limit, the device is not
      locked, nobody seeks out of range, and the kernel refuses, cuts short and interrupts
      none of the server's writes. */
  lemma {:induction false} TotalFits(s: Server, evs: seq<Event>)
    requires s.sys.dev.Inv() && !s.sys.dev.locked && Happens(s, evs) && NeverLocks(evs) && AllWilling(evs)
    requires |s.sys.dev.pending| + Outstanding(s.conns) + Promised(evs) <= s.sys.dev.limit
    ensures Runs(s, evs) && After(s, evs).sys.dev.limit == s.sys.dev.limit
    ensures Budget(After(s, evs), |s.sys.dev.pending| + Outstanding(s.conns) + Promised(evs))
  {
    if evs != [] {
      var front, ev := evs[..|evs| - 1], evs[|evs| - 1];
      TotalFits(s, front);
      AfterDevice(s, front);
      BudgetStep(After(s, front), ev, |s.sys.dev.pending| + Outstanding(s.conns) + Promised(front));
    }
  }

  // ---- When chunks interleave -----------------------------------------------------------

  /** The lines since the last one that ended an entry. */
  function Unfinished(log: seq<Line>): seq<Line> {
    if log == [] || PieceOf(log[|log| - 1]).terminated then []
    else Unfinished(log[..|log| - 1]) + [log[|log| - 1]]
  }

  predicate AnyEnded(log: seq<Line>) {
    log != [] && (PieceOf(log[|log| - 1]).terminated || AnyEnded(log[..|log| - 1]))
  }

  /** What was pending before the log began, if no line has ended that entry yet. */
  function Carried(base: Dev, log: seq<Line>): seq<byte> {
    if AnyEnded(log) then [] else base.pending
  }

  /** Everything stored since the last newline, from anybody. */
  function Since(base: Dev, log: seq<Line>): seq<byte> {
    Carried(base, log) + LogBytes(Unfinished(log))
  }

  /** That is what a framed log leaves pending. */
  lemma {:induction false} TailIsSince(base: Dev, log: seq<Line>)
    ensures Tail(base.pending, Pieces(log)) == Since(base, log)
  {
    if log == [] {
      assert Joined([]) == [];
    } else {
      var front, line := log[..|log| - 1], log[|log| - 1];
      assert log == front + [line];
      TailIsSince(base, front);
      LogSnoc(front, line, 0);
      FramingSnoc(base.pending, Pieces(front), PieceOf(line));
      SinceSnoc(base, front, line);
    }
  }

  lemma SinceSnoc(base: Dev, log: seq<Line>, line: Line)
    ensures Since(base, log + [line]) == Left(Since(base, log), PieceOf(line))
  {
    LineEnds(log, line);
    if PieceOf(line).terminated {
      assert LogBytes([]) == [];
    } else {
      LogSnoc(Unfinished(log), line, 0);
      Associates(Carried(base, log), LogBytes(Unfinished(log)), line.stored);
    }
  }

  lemma LineEnds(log: seq<Line>, line: Line)
    ensures AnyEnded(log + [line]) <==> PieceOf(line).terminated || AnyEnded(log)
    ensures Unfinished(log + [line]) == if PieceOf(line).terminated then [] else Unfinished(log) + [line]
  {
    assert (log + [line])[..|log|] == log;
  }

  /** Nothing was stored for other connections. */
  predicate OnlyBy(log: seq<Line>, c: nat) {
    log == [] || ((log[|log| - 1].conn == c || log[|log| - 1].stored == []) && OnlyBy(log[..|log| - 1], c))
  }

  lemma {:induction false} OnlyByIff(log: seq<Line>, c: nat)
    ensures |TextOf(log, c)| <= |LogBytes(log)|
    ensures OnlyBy(log, c) <==> |TextOf(log, c)| == |LogBytes(log)|
    ensures OnlyBy(log, c) ==> TextOf(log, c) == LogBytes(log)
  {
    if log != [] {
      OnlyByIff(log[..|log| - 1], c);
    }
  }

  lemma SameTail(a: seq<byte>, b: seq<byte>, t: seq<byte>)
    ensures a + t == b + t <==> a == b
  {
    if a + t == b + t {
      assert |a| == |b|;
      assert a == (a + t)[..|a|] == (b + t)[..|b|] == b;
    }
  }

  /** The entry that a connection's newline commits: everything stored, from anybody,
      since the last newline. It is the connection's own packet if and only if that is,
      end to end, what that connection has sent. */
  lemma EntryIsPacketIff(s: Server, base: Dev, c: nat, t: Turn)
    requires LogOk(s) && Framed(base, s.sys.dev, s.log) && s.sys.dev.Inv()
    requires Writing(s, c, t) && EndsInNewline(Text(s, c))
    ensures var (d, e) := (s.sys.dev, Next(s, Receive(c, t)).sys.dev);
            var entry := Since(base, s.log) + Text(s, c);
            && e.committed == d.committed + [entry] && e.pending == []
            && (entry == Sent(s.conns[c].chunks) <==> Since(base, s.log) == OfferedBy(s.log, c))
  {
    TailIsSince(base, s.log);
    WritingAppends(s, c, t);
    LogOkAt(s, c);
    FinalPass(s.conns[c], OfferedBy(s.log, c));
    SameTail(Since(base, s.log), OfferedBy(s.log, c), Text(s, c));
  }

  /** The text of the chunk that a connection receives next. */
  function Text(s: Server, c: nat): seq<byte> {
    if c < |s.conns| && s.conns[c].got < |s.conns[c].chunks| then Payload(s.conns[c].chunks[s.conns[c].got]) else []
  }

  /** The pass that hands over the newline completes what is sent of the stream. */
  lemma FinalPass(conn: Conn, text: seq<byte>)
    requires ConnOk(conn, text) && conn.open && conn.got < |conn.chunks| && !conn.sought
    requires EndsInNewline(Payload(conn.chunks[conn.got]))
    ensures Sent(conn.chunks) == text + Payload(conn.chunks[conn.got])
  {
    assert conn.kept == conn.got;
    SentComplete(conn.chunks, conn.got);
  }

  /** The schedules that keep packets whole. As long as nothing that the connection sent
      was refused, or taken away by somebody else's newline, its newline commits its packet
      if and only if nothing was stored for anybody else since the last newline. */
  lemma UndisturbedIff(s: Server, base: Dev, c: nat, t: Turn)
    requires LogOk(s) && Framed(base, s.sys.dev, s.log) && s.sys.dev.Inv()
    requires Writing(s, c, t) && EndsInNewline(Text(s, c))
    requires TextOf(Unfinished(s.log), c) == OfferedBy(s.log, c)
    ensures var (d, e) := (s.sys.dev, Next(s, Receive(c, t)).sys.dev);
            && |e.committed| == |d.committed| + 1
            && (e.committed[|d.committed|] == Sent(s.conns[c].chunks)
                <==> Carried(base, s.log) == [] && OnlyBy(Unfinished(s.log), c))
  {
    EntryIsPacketIff(s, base, c, t);
    OnlyByIff(Unfinished(s.log), c);
    var carried, since := Carried(base, s.log), LogBytes(Unfinished(s.log));
    if carried == [] { assert carried + since == since; }
    assert |carried + since| == |carried| + |since|;
  }

  /** A pass of connection c that hands text to the device. */
  ghost predicate Sends(s: Server, c: nat, t: Turn, e: Server) {
    Writing(s, c, t) && e == Next(s, Receive(c, t)) && Text(s, c) != []
  }

  lemma SendsText(s: Server, c: nat, t: Turn, e: Server)
    requires Sends(s, c, t, e) && s.sys.dev.Inv()
    ensures e.sys.dev.Inv()
    ensures AppendsText(s.sys.dev, e.sys.dev, Text(s, c))
    ensures c < |s.conns| && e.conns == s.conns[c := e.conns[c]]
    ensures e.conns[c].chunks == s.conns[c].chunks && e.conns[c].got == s.conns[c].got + 1 <= |s.conns[c].chunks|
    ensures e.conns[c].open <==> NEWLINE !in s.conns[c].chunks[s.conns[c].got]
  {
    WritingAppends(s, c, t);
    RunInv(s.sys, ReceiveCalls(s.conns[c], t));
  }

  /** One chunk of another connection between two chunks of this one, with or without a
      newline of its own: the entry that this connection's newline commits is not its
      packet. Without that newline it holds bytes of both; with it, the other's newline
      has taken this connection's first chunk into an entry of its own. */
  lemma InterposedChunkMixes(s: Server, m: Server, n: Server, e: Server, c: nat, d: nat, t: Turn, u: Turn, v: Turn)
    requires s.sys.dev.Inv() && s.sys.dev.pending == [] && c != d && c < |s.conns| && s.conns[c].got == 0
    requires Sends(s, c, t, m) && Sends(m, d, u, n) && Sends(n, c, v, e) && EndsInNewline(Text(n, c))
    ensures var (a, b, z) := (Text(s, c), Text(m, d), Text(n, c));
            var entries := e.sys.dev.committed;
            && entries == s.sys.dev.committed + (if EndsInNewline(b) then [a + b, z] else [a + b + z])
            && e.sys.dev.pending == []
            && Sent(s.conns[c].chunks) == a + z != entries[|entries| - 1]
  {
    SendsText(s, c, t, m);
    SendsText(m, d, u, n);
    SendsText(n, c, v, e);
    TwoChunks(s.conns[c].chunks, Text(n, c));
    MixedEntry(s.sys.dev, m.sys.dev, n.sys.dev, e.sys.dev, Text(s, c), Text(m, d), Text(n, c));
  }

  lemma TwoChunks(chunks: seq<seq<byte>>, z: seq<byte>)
    requires 1 < |chunks| && NEWLINE !in chunks[0] && z == Payload(chunks[1]) && EndsInNewline(z)
    ensures Sent(chunks) == Payload(chunks[0]) + z && !EndsInNewline(Payload(chunks[0]))
  {
    PayloadShape(chunks[0]);
    NoNewlineEnds(Payload(chunks[0]));
    PayloadShape(chunks[1]);
    assert chunks[1..][0] == chunks[1];
    assert z[|z| - 1] in chunks[1];
  }

  /** What three appended texts commit, the last of which ends in a newline. */
  lemma MixedEntry(d: Dev, e: Dev, f: Dev, g: Dev, a: seq<byte>, b: seq<byte>, z: seq<byte>)
    requires d.pending == [] && AppendsText(d, e, a) && AppendsText(e, f, b) && AppendsText(f, g, z)
    requires a != [] && b != [] && !EndsInNewline(a) && EndsInNewline(z)
    ensures g.committed == d.committed + if EndsInNewline(b) then [a + b, z] else [a + b + z]
    ensures g.pending == [] && g.committed[|g.committed| - 1] != a + z
  {
    assert e.pending == a && e.committed == d.committed;
    if EndsInNewline(b) {
      assert f.pending == [] && [] + z == z;
      assert d.committed + [a + b] + [z] == d.committed + [a + b, z];
    } else {
      assert f.pending == a + b && f.committed == d.committed;
      assert |a + b + z| != |a + z|;
    }
  }

  /** One byte written by a kernel that grants it. */
  function Byte(b: byte): Turn {
    Turn(0, [[b]], [Answer(1, true, true, false)], 0, 0)
  }

  /** Such a chunk is the next to be received, and there is room for it. */
  ghost predicate Ready(s: Server, c: nat, b: byte) {
    && b != NUL && c < |s.conns| && s.conns[c].open && s.conns[c].got < |s.conns[c].chunks| && !s.conns[c].sought
    && s.conns[c].chunks[s.conns[c].got] == [b]
    && s.sys.dev.Inv() && !s.sys.dev.locked && |s.sys.dev.pending| < s.sys.dev.limit
  }

  lemma ByteEnabled(s: Server, c: nat, b: byte)
    requires Ready(s, c, b)
    ensures Enabled(s, Receive(c, Byte(b))) && Text(s, c) == [b]
  {
    OneByte(b);
    assert Concat([[b]]) == [b] + Concat([]);
  }

  lemma ByteSends(s: Server, c: nat, b: byte, e: Server)
    requires Ready(s, c, b) && Enabled(s, Receive(c, Byte(b))) && e == Next(s, Receive(c, Byte(b)))
    ensures Sends(s, c, Byte(b), e) && Text(s, c) == [b] && !e.conns[c].sought
  {
    ByteEnabled(s, c, b);
    ShortNoToken([b]);
    assert Willing(Byte(b));
    WillingTakes(s.sys.dev, Byte(b));
  }

  /** Such a chunk that is not a newline stays pending. */
  lemma ByteStays(s: Server, c: nat, b: byte, e: Server)
    requires Ready(s, c, b) && b != NEWLINE
    requires Enabled(s, Receive(c, Byte(b))) && e == Next(s, Receive(c, Byte(b)))
    ensures Sends(s, c, Byte(b), e) && Text(s, c) == [b] && e.sys.dev.Inv()
    ensures |e.sys.dev.pending| == |s.sys.dev.pending| + 1 && !e.sys.dev.locked && e.sys.dev.limit == s.sys.dev.limit
    ensures |e.conns| == |s.conns| && forall i :: 0 <= i < |s.conns| && i != c ==> e.conns[i] == s.conns[i]
    ensures e.conns[c].chunks == s.conns[c].chunks && e.conns[c].got == s.conns[c].got + 1
    ensures e.conns[c].open && !e.conns[c].sought
  {
    ByteSends(s, c, b, e);
    SendsText(s, c, Byte(b), e);
  }

  /** A mixed entry from the loaded module: one connection sends "A" and then its newline,
      another sends "B" in between, and "AB" is what is committed. */
  lemma MixedRun(limit: nat)
    requires 3 <= limit && 10 * limit < TWO31
    ensures var s := Server(Init(limit), [NewConn([[65], [NEWLINE]]), NewConn([[66]])], []);
            var evs := [Receive(0, Byte(65)), Receive(1, Byte(66)), Receive(0, Byte(NEWLINE))];
            && Happens(s, evs)
            && After(s, evs).sys.dev.committed == [[65, 66, NEWLINE]]
            && Sent([[65], [NEWLINE]]) == [65, NEWLINE]
  {
    var s := Server(Init(limit), [NewConn([[65], [NEWLINE]]), NewConn([[66]])], []);
    ByteEnabled(s, 0, 65);
    var m := Next(s, Receive(0, Byte(65)));
    ByteStays(s, 0, 65, m);
    ByteEnabled(m, 1, 66);
    var n := Next(m, Receive(1, Byte(66)));
    ByteStays(m, 1, 66, n);
    ByteEnabled(n, 0, NEWLINE);
    MixedEnd(s, m, n, Next(n, Receive(0, Byte(NEWLINE))));
    ThreeEvents(s, Receive(0, Byte(65)), Receive(1, Byte(66)), Receive(0, Byte(NEWLINE)));
  }

  lemma MixedEnd(s: Server, m: Server, n: Server, e: Server)
    requires s.sys.dev.Inv() && s.sys.dev.committed == [] && s.sys.dev.pending == []
    requires 0 < |s.conns| && s.conns[0] == NewConn([[65], [NEWLINE]])
    requires Sends(s, 0, Byte(65), m) && Text(s, 0) == [65]
    requires Sends(m, 1, Byte(66), n) && Text(m, 1) == [66]
    requires Ready(n, 0, NEWLINE) && Enabled(n, Receive(0, Byte(NEWLINE))) && e == Next(n, Receive(0, Byte(NEWLINE)))
    ensures e.sys.dev.committed == [[65, 66, NEWLINE]] && Sent([[65], [NEWLINE]]) == [65, NEWLINE]
  {
    ByteSends(n, 0, NEWLINE, e);
    InterposedChunkMixes(s, m, n, e, 0, 1, Byte(65), Byte(66), Byte(NEWLINE));
    ThreeBytes(65, 66, NEWLINE);
  }

  lemma ThreeBytes(a: byte, b: byte, z: byte)
    ensures [a] + [b] + [z] == [a, b, z] && [a] + [z] == [a, z]
    ensures [] + [[a, b, z]] == [[a, b, z]]
  {
  }

  lemma ThreeEvents(s: Server, a: Event, b: Event, c: Event)
    requires Enabled(s, a) && Enabled(Next(s, a), b) && Enabled(Next(Next(s, a), b), c)
    ensures Happens(s, [a, b, c]) && After(s, [a, b, c]) == Next(Next(Next(s, a), b), c)
  {
    assert [] + [a] == [a] && [a] + [b] == [a, b] && [a, b] + [c] == [a, b, c];
    EventsSnoc(s, [], a);
    EventsSnoc(s, [a], b);
    EventsSnoc(s, [a, b], c);
  }

  lemma EventsSnoc(s: Server, evs: seq<Event>, ev: Event)
    requires Happens(s, evs) && Enabled(After(s, evs), ev)
    ensures Happens(s, evs + [ev]) && After(s, evs + [ev]) == Next(After(s, evs), ev)
  {
    assert (evs + [ev])[..|evs|] == evs;
  }
}
