/** The server's own code: extraction from the receive buffer, the receive loop of
    a connection, and the reply read back from the device. */
module SocketServer {
  import opened Bytes
  import opened CircularBuffer
  import opened Positions
  import opened KernelHeap
  import opened DeviceSpec
  import opened DeviceRuns
  import opened Readers
  import opened Vfs
  import opened Extraction
  import opened Framing
  import opened Delivery

  const BUFFER_SIZE: nat := 100000

  // ---- extract_data_up_to_newline ---------------------------------------------------

  lemma UpToNewlineAt(s: seq<byte>, k: nat)
    requires k < |s| && s[k] == NEWLINE && NEWLINE !in s[..k]
    ensures UpToNewline(s) == s[..k + 1]
  {
    assert s == s[..k] + s[k..];
    UpToNewlineAppend(s[..k], s[k..]);
    assert s[..k + 1] == s[..k] + [NEWLINE];
  }

  /** Where the search for a newline ended, and what it found. */
  lemma FoundAt(s: seq<byte>, k: nat, found: bool)
    requires k < |s| && NEWLINE !in s[..k]
    requires if found then s[k] == NEWLINE else k == |s| - 1 && NEWLINE !in s
    ensures UpToNewline(s) == s[..k + 1] && (found <==> NEWLINE in s)
  {
    if found {
      UpToNewlineAt(s, k);
      assert s[k] in s;
    } else {
      UpToNewlineShape(s);
    }
  }

  /** A NUL-terminated copy of the received bytes through their first newline. The
      byte after the received ones is read, and must exist. */
  method ExtractDataUpToNewline(buf: array<byte>, nread: nat) returns (newString: array<byte>, found: bool)
    requires 0 < nread < buf.Length
    ensures found <==> NEWLINE in buf[..nread]
    ensures newString[..] == UpToNewline(buf[..nread]) + [NUL]
  {
    var newLineIndex := -1;
    found := false;
    var i := 0;
    while i < nread && !found
      invariant 0 <= i <= nread
      invariant !found ==> newLineIndex == -1 && NEWLINE !in buf[..i]
      invariant found ==> 0 <= newLineIndex < nread && buf[newLineIndex] == NEWLINE && NEWLINE !in buf[..newLineIndex]
      decreases nread - i, !found
    {
      if buf[i] == NEWLINE {
        newLineIndex := i;
        found := true;
      } else {
        i := i + 1;
      }
    }
    ghost var chunk := buf[..nread];
    if newLineIndex == -1 {
      newLineIndex := nread - 1;
    }
    assert chunk[..newLineIndex] == buf[..newLineIndex];
    FoundAt(chunk, newLineIndex, found);
    var newSize := newLineIndex + 2;
    newString := new byte[newSize];
    var j := 0;
    while j < newSize
      invariant 0 <= j <= newSize
      invariant forall m :: 0 <= m < j ==> newString[m] == buf[m]
      invariant buf[..nread] == chunk
    {
      newString[j] := buf[j];
      j := j + 1;
    }
    newString[newLineIndex + 1] := NUL;
    assert newString[..newLineIndex + 1] == chunk[..newLineIndex + 1];
    assert newString[..] == newString[..newLineIndex + 1] + [NUL];
  }

  /** Appending the terminator does not change what a C string function sees. */
  lemma {:induction false} CStringTerminated(s: seq<byte>)
    ensures CString(s + [NUL]) == CString(s)
  {
    if s != [] {
      CStringTerminated(s[1..]);
      assert (s + [NUL])[1..] == s[1..] + [NUL];
    }
  }

  // ---- handle_connection: the receive loop ---------------------------------------------

  /** fprintf and fclose: the text is tried in stdio's pieces, and nobody looks at what
      became of them. */
  method Fprintf(k: Kernel, fd: Fd, frags: seq<seq<byte>>, answers: seq<Answer>)
    requires k.Valid() && Tryable(frags, answers)
    modifies k, k.dev, k.dev.ring, k.dev.ring.entry, k.dev.heap
    ensures k.Valid() && k.Abs() == Run(old(k.Abs()), Tries(fd, frags, answers))
  {
    ghost var all := Tries(fd, frags, answers);
    var i := 0;
    while i < |frags|
      invariant 0 <= i <= |frags|
      invariant k.Valid() && k.Abs() == Run(old(k.Abs()), all[..i])
    {
      var _ := k.Syscall(Try(fd, frags[i], answers[i]));
      assert all[..i + 1][..i] == all[..i];
      i := i + 1;
    }
    assert all[..|frags|] == all;
  }

  /** recvfrom into the buffer, then extraction: the text as C string functions see it. */
  method TakeChunk(buf: array<byte>, chunk: seq<byte>) returns (text: seq<byte>, newLineFound: bool)
    requires 0 < |chunk| < buf.Length
    modifies buf
    ensures text == Payload(chunk)
    ensures newLineFound <==> NEWLINE in chunk
  {
    var nread := |chunk|;
    forall j | 0 <= j < nread {
      buf[j] := chunk[j];
    }
    buf[nread] := NUL;
    assert buf[..nread] == chunk;
    var newString, found := ExtractDataUpToNewline(buf, nread);
    CStringTerminated(UpToNewline(chunk));
    text, newLineFound := CString(newString[..]), found;
  }

  /** fopen, fprintf, fclose. */
  method AppendText(k: Kernel, t: Turn)
    requires k.Valid() && Tryable(t.frags, t.answers)
    modifies k, k.dev, k.dev.ring, k.dev.ring.entry, k.dev.heap
    ensures k.Valid() && k.Abs() == Run(old(k.Abs()), TurnCalls(t))
  {
    RunAppend(k.Abs(), [Open(t.fd)], Tries(t.fd, t.frags, t.answers));
    RunOne(k.Abs(), Open(t.fd));
    var _ := k.Syscall(Open(t.fd));
    Fprintf(k, t.fd, t.frags, t.answers);
  }

  /** What is done with the text of a chunk, given whether it holds a seek command. */
  method HandleText(k: Kernel, conn: Conn, t: Turn, token: bool, newLineFound: bool) returns (conn': Conn)
    requires k.Valid() && conn.got < |conn.chunks| && TurnFor(conn.chunks[conn.got], t)
    requires newLineFound <==> NEWLINE in conn.chunks[conn.got]
    modifies k, k.dev, k.dev.ring, k.dev.ring.entry, k.dev.heap
    ensures k.Valid()
    ensures k.Abs() == Run(old(k.Abs()), PassCalls(conn, t, token))
    ensures conn' == Pass(conn, t, token)
  {
    conn' := conn.(got := conn.got + 1, open := !newLineFound);
    if token {
      conn' := conn'.(sought := true, command := t.command, offset := t.offset);
    }
    if conn'.sought { return; }
    conn' := conn'.(kept := conn.kept + 1);
    AppendText(k, t);
  }

  /** One pass of the loop, under the file mutex. */
  method HandleChunk(k: Kernel, buf: array<byte>, conn: Conn, t: Turn) returns (conn': Conn)
    requires k.Valid() && conn.got < |conn.chunks| && TurnFor(conn.chunks[conn.got], t)
    requires 0 < |conn.chunks[conn.got]| < buf.Length
    modifies k, k.dev, k.dev.ring, k.dev.ring.entry, k.dev.heap, buf
    ensures k.Valid()
    ensures k.Abs() == Run(old(k.Abs()), ReceiveCalls(conn, t))
    ensures conn' == ReceiveConn(conn, t)
  {
    var text, newLineFound := TakeChunk(buf, conn.chunks[conn.got]);
    conn' := HandleText(k, conn, t, HasToken(text), newLineFound);
  }

  /** Only chunks of connection c. */
  ghost predicate OnlyFrom(evs: seq<Event>, c: nat) {
    forall i :: 0 <= i < |evs| ==> evs[i].Receive? && evs[i].conn == c
  }

  /** Events of a server with this one connection. */
  ghost predicate Solo(sys: Sys, chunks: seq<seq<byte>>, evs: seq<Event>) {
    Happens(Server(sys, [NewConn(chunks)], []), evs) && OnlyFrom(evs, 0)
  }

  /** One more chunk of the one connection. */
  lemma SoloReceive(sys: Sys, chunks: seq<seq<byte>>, evs: seq<Event>, conn: Conn, now: Sys, t: Turn)
    requires Solo(sys, chunks, evs) && Loop(sys, chunks, evs, conn, now)
    requires conn.open && conn.got < |conn.chunks| && TurnFor(conn.chunks[conn.got], t)
    ensures Solo(sys, chunks, evs + [Receive(0, t)])
    ensures Loop(sys, chunks, evs + [Receive(0, t)], ReceiveConn(conn, t), Run(now, ReceiveCalls(conn, t)))
  {
    var s, ev := Server(sys, [NewConn(chunks)], []), Receive(0, t);
    assert (evs + [ev])[..|evs|] == evs;
    NextReceive(After(s, evs), conn, t);
  }

  lemma NextReceive(m: Server, conn: Conn, t: Turn)
    requires m.conns == [conn] && conn.open && conn.got < |conn.chunks| && TurnFor(conn.chunks[conn.got], t)
    ensures Enabled(m, Receive(0, t))
    ensures Next(m, Receive(0, t)).conns == [ReceiveConn(conn, t)]
    ensures Next(m, Receive(0, t)).sys == Run(m.sys, ReceiveCalls(conn, t))
  {
  }

  /** Where such a run has led. */
  ghost predicate Loop(sys: Sys, chunks: seq<seq<byte>>, evs: seq<Event>, conn: Conn, now: Sys) {
    var e := After(Server(sys, [NewConn(chunks)], []), evs);
    e.conns == [conn] && e.sys == now
  }

  ghost predicate TurnsFor(chunks: seq<seq<byte>>, turns: seq<Turn>) {
    |turns| == |chunks|
    && forall i :: 0 <= i < |chunks| ==> 0 < |chunks[i]| < BUFFER_SIZE && TurnFor(chunks[i], turns[i])
  }

  /** Where the loop ends, by its own recursion. */
  ghost function LoopEnd(sys: Sys, conn: Conn, turns: seq<Turn>): (Sys, Conn)
    requires TurnsFor(conn.chunks, turns)
    decreases |conn.chunks| - conn.got
  {
    if conn.open && conn.got < |conn.chunks| then
      LoopEnd(Run(sys, ReceiveCalls(conn, turns[conn.got])), ReceiveConn(conn, turns[conn.got]), turns)
    else (sys, conn)
  }

  /** The receive loop: chunks until one holds a newline or the peer closes. It is
      a run of receive events of this one connection, with nobody in between. */
  method ReceiveLoop(k: Kernel, chunks: seq<seq<byte>>, turns: seq<Turn>)
      returns (conn: Conn, ghost evs: seq<Event>)
    requires k.Valid() && TurnsFor(chunks, turns)
    modifies k, k.dev, k.dev.ring, k.dev.ring.entry, k.dev.heap
    ensures (k.Abs(), conn) == LoopEnd(old(k.Abs()), NewConn(chunks), turns)
    ensures k.Valid() && Solo(old(k.Abs()), chunks, evs) && Loop(old(k.Abs()), chunks, evs, conn, k.Abs())
  {
    var buf := new byte[BUFFER_SIZE];
    conn, evs := NewConn(chunks), [];
    while conn.open && conn.got < |chunks|
      invariant k.Valid() && Solo(old(k.Abs()), chunks, evs) && Loop(old(k.Abs()), chunks, evs, conn, k.Abs())
      invariant conn.chunks == chunks
      invariant LoopEnd(k.Abs(), conn, turns) == LoopEnd(old(k.Abs()), NewConn(chunks), turns)
      decreases |chunks| - conn.got
    {
      var t := turns[conn.got];
      SoloReceive(old(k.Abs()), chunks, evs, conn, k.Abs(), t);
      conn := HandleChunk(k, buf, conn, t);
      evs := evs + [Receive(0, t)];
    }
  }

  // ---- What the loop leaves behind ---------------------------------------------------------

  /** The pair read from the last seek command in some chunks. */
  function LastPair(chunks: seq<seq<byte>>, turns: seq<Turn>): (bv32, bv32)
    requires |chunks| <= |turns|
  {
    if chunks == [] then (0, 0)
    else
      var n := |chunks| - 1;
      if HasToken(Payload(chunks[n])) then (turns[n].command, turns[n].offset) else LastPair(chunks[..n], turns)
  }

  /** A connection that has put on the device what it should have. */
  ghost predicate SelfOk(conn: Conn) {
    conn.kept <= |conn.chunks| && ConnOk(conn, Sent(conn.chunks[..conn.kept]))
  }

  /** What holds of the connection after every pass. */
  ghost predicate LoopOk(conn: Conn, turns: seq<Turn>) {
    && TurnsFor(conn.chunks, turns)
    && SelfOk(conn)
    && (!conn.open ==> conn.got == Stops(conn.chunks))
    && (conn.command, conn.offset) == LastPair(conn.chunks[..conn.got], turns)
  }

  lemma LoopOkNew(chunks: seq<seq<byte>>, turns: seq<Turn>)
    requires TurnsFor(chunks, turns)
    ensures LoopOk(NewConn(chunks), turns)
  {
    assert Concat(chunks[..0]) == [];
  }

  lemma LoopOkNext(conn: Conn, turns: seq<Turn>)
    requires LoopOk(conn, turns) && conn.open && conn.got < |conn.chunks|
    ensures LoopOk(ReceiveConn(conn, turns[conn.got]), turns)
  {
    LoopOkPass(conn, turns, HasToken(Payload(conn.chunks[conn.got])));
  }

  lemma LoopOkPass(conn: Conn, turns: seq<Turn>, token: bool)
    requires LoopOk(conn, turns) && conn.open && conn.got < |conn.chunks|
    requires token == HasToken(Payload(conn.chunks[conn.got]))
    ensures LoopOk(Pass(conn, turns[conn.got], token), turns)
  {
    SelfOkPass(conn, turns[conn.got], token);
    StopsBeyond(conn.chunks, conn.got);
    PairSnoc(conn.chunks, turns, conn.got, token);
  }

  lemma SelfOkPass(conn: Conn, t: Turn, token: bool)
    requires SelfOk(conn) && conn.open && conn.got < |conn.chunks|
    requires token == HasToken(Payload(conn.chunks[conn.got]))
    ensures SelfOk(Pass(conn, t, token))
  {
    PassOk(conn, Sent(conn.chunks[..conn.kept]), t, token);
    SelfOkAny(Pass(conn, t, token), if conn.sought || token then Sent(conn.chunks[..conn.kept])
                                    else Sent(conn.chunks[..conn.kept]) + Payload(conn.chunks[conn.got]));
  }

  lemma SelfOkAny(conn: Conn, text: seq<byte>)
    requires ConnOk(conn, text)
    ensures SelfOk(conn)
  {
  }

  lemma PairSnoc(chunks: seq<seq<byte>>, turns: seq<Turn>, n: nat, token: bool)
    requires n < |chunks| <= |turns| && token == HasToken(Payload(chunks[n]))
    ensures LastPair(chunks[..n + 1], turns)
         == if token then (turns[n].command, turns[n].offset) else LastPair(chunks[..n], turns)
  {
    assert chunks[..n + 1][..n] == chunks[..n];
  }

  /** The loop stops at the first newline or at the last chunk. */
  lemma LoopOkEnd(conn: Conn, turns: seq<Turn>)
    requires LoopOk(conn, turns) && !(conn.open && conn.got < |conn.chunks|)
    ensures conn.got == Stops(conn.chunks)
  {
    if conn.open {
      assert conn.chunks[..conn.got] == conn.chunks;
      StopsNever(conn.chunks);
    }
  }

  /** Where the loop leaves the connection: it has received the chunks through the first
      newline, has seen a seek command if there is one among them, and has the pair of
      the last one. */
  lemma {:induction false} LoopConn(sys: Sys, conn: Conn, turns: seq<Turn>)
    requires LoopOk(conn, turns)
    ensures var (_, end) := LoopEnd(sys, conn, turns);
            && end.got == Stops(conn.chunks)
            && (end.sought <==> Seeks(conn.chunks))
            && (end.command, end.offset) == LastPair(conn.chunks[..Stops(conn.chunks)], turns)
    decreases |conn.chunks| - conn.got
  {
    if conn.open && conn.got < |conn.chunks| {
      var t := turns[conn.got];
      LoopOkNext(conn, turns);
      LoopConn(Run(sys, ReceiveCalls(conn, t)), ReceiveConn(conn, t), turns);
    } else {
      LoopOkEnd(conn, turns);
    }
  }

  /** No turn is refused an allocation within the limit, cut short or interrupted. */
  ghost predicate WillingAll(turns: seq<Turn>) {
    forall i :: 0 <= i < |turns| ==> Willing(turns[i])
  }

  /** Where it leaves the device, when there is room for all it writes and the kernel is
      willing: everything written is appended as one text, whatever bytes it has and
      however it was cut. */
  lemma {:induction false} LoopDevice(sys: Sys, conn: Conn, turns: seq<Turn>, d: Dev)
    requires LoopOk(conn, turns) && Room(d, |Written(conn.chunks)|) && WillingAll(turns) && sys.dev.Inv()
    requires sys.dev == Appended(d, Sent(conn.chunks[..conn.kept]))
    ensures LoopEnd(sys, conn, turns).0.dev == Appended(d, Written(conn.chunks))
    decreases |conn.chunks| - conn.got
  {
    if conn.open && conn.got < |conn.chunks| {
      var t := turns[conn.got];
      LoopOkNext(conn, turns);
      var token := HasToken(Payload(conn.chunks[conn.got]));
      PassRoom(conn, d, token);
      PassDevice(sys, conn, t, d, token);
      RunInv(sys, ReceiveCalls(conn, t));
      LoopDevice(Run(sys, ReceiveCalls(conn, t)), ReceiveConn(conn, t), turns, d);
    } else {
      LoopOkEnd(conn, turns);
    }
  }

  /** Another chunk for the device fits. */
  lemma PassRoom(conn: Conn, d: Dev, token: bool)
    requires SelfOk(conn)
    requires conn.open && conn.got < |conn.chunks| && token == HasToken(Payload(conn.chunks[conn.got]))
    requires Room(d, |Written(conn.chunks)|)
    ensures !conn.sought && !token ==> Room(d, |Sent(conn.chunks[..conn.got + 1])|)
  {
    if !conn.sought && !token {
      WrittenSoFar(conn.chunks, conn.got, token);
    }
  }

  lemma PassDevice(sys: Sys, conn: Conn, t: Turn, d: Dev, token: bool)
    requires conn.got < |conn.chunks| && conn.kept <= conn.got && (conn.sought || conn.kept == conn.got)
    requires TurnFor(conn.chunks[conn.got], t) && NEWLINE !in Concat(conn.chunks[..conn.got])
    requires Willing(t) && sys.dev.Inv()
    requires sys.dev == Appended(d, Sent(conn.chunks[..conn.kept]))
    requires !conn.sought && !token ==> Room(d, |Sent(conn.chunks[..conn.got + 1])|)
    ensures var conn' := Pass(conn, t, token);
            && conn'.kept <= |conn.chunks|
            && Run(sys, PassCalls(conn, t, token)).dev == Appended(d, Sent(conn.chunks[..conn'.kept]))
  {
    if !conn.sought && !token {
      AppendMore(sys, t, conn.chunks, conn.got, d);
    }
  }

  /** One more chunk for the device. */
  lemma AppendMore(sys: Sys, t: Turn, chunks: seq<seq<byte>>, n: nat, d: Dev)
    requires n < |chunks| && TurnFor(chunks[n], t) && NEWLINE !in Concat(chunks[..n])
    requires Willing(t) && sys.dev.Inv()
    requires sys.dev == Appended(d, Sent(chunks[..n])) && Room(d, |Sent(chunks[..n + 1])|)
    ensures Run(sys, TurnCalls(t)).dev == Appended(d, Sent(chunks[..n + 1]))
  {
    SentNext(chunks, n);
    SentQuiet(chunks[..n]);
    RoomLeft(d, Sent(chunks[..n]), Payload(chunks[n]));
    WillingTakes(sys.dev, t);
    TurnWholeIff(0, sys, t, chunks[n]);
    AppendedTwice(d, Sent(chunks[..n]), Payload(chunks[n]));
  }

  /** What has been written after one more chunk is a prefix of what will be. */
  lemma WrittenSoFar(chunks: seq<seq<byte>>, n: nat, token: bool)
    requires n < |chunks| && NEWLINE !in Concat(chunks[..n])
    requires FirstToken(chunks[..n]) == n && !token && token == HasToken(Payload(chunks[n]))
    ensures Sent(chunks[..n + 1]) <= Written(chunks)
  {
    NextChunk(chunks, n, token);
    StopsBeyond(chunks, n);
    var received := chunks[..Stops(chunks)];
    FirstTokenGrows(received, n + 1);
    assert received[..n + 1] == chunks[..n + 1];
    var before := chunks[..FirstToken(received)];
    assert before[..n + 1] == chunks[..n + 1];
    SentPrefix(before, n + 1);
  }

  /** In particular, without a seek command the device's bytes grow by exactly what
      `Sent` says of the stream, NUL bytes included. */
  lemma LoopSends(sys: Sys, chunks: seq<seq<byte>>, turns: seq<Turn>)
    requires TurnsFor(chunks, turns) && !Seeks(chunks) && Room(sys.dev, |Sent(chunks)|)
    requires WillingAll(turns) && sys.dev.Inv()
    ensures var (d, e) := (sys.dev, LoopEnd(sys, NewConn(chunks), turns).0.dev);
            && e == Appended(d, Sent(chunks))
            && Concat(e.committed) + e.pending == Concat(d.committed) + d.pending + Sent(chunks)
  {
    WrittenShape(chunks);
    LoopOkNew(chunks, turns);
    LoopDevice(sys, NewConn(chunks), turns, sys.dev);
    AppendedBytes(sys.dev, Sent(chunks));
  }

  lemma RoomLeft(d: Dev, x: seq<byte>, y: seq<byte>)
    requires Room(d, |x + y|) && NEWLINE !in x
    ensures Room(Appended(d, x), |y|)
  {
    AppendedText(d, x);
    NoNewlineEnds(x);
    AppendedPending(d, x);
  }

  // ---- read_char_device --------------------------------------------------------------------

  /** Where the reply starts reading. */
  function ReplyStart(d: Dev, sought: bool, first: bv8, garbage: bv32): nat {
    if !sought then 0
    else
      var word := ReceivedWord(first, garbage);
      SeekPos(d, DecodeCommand(word) as nat, DecodeOffset(word) as nat)
  }

  /** The reply read from device d, which is left as e. */
  ghost predicate Replied(d: Dev, e: Dev, sought: bool, command: bv32, offset: bv32, garbage: bv32,
                          hung: bool, contents: seq<byte>)
  {
    var first := FirstByte(EncodeSeek(command, offset));
    var refused := sought && DecodeCommand(ReceivedWord(first, garbage)) >= 10;
    && (hung <==> d.locked || refused)
    && e == d.(locked := hung)
    && (!hung ==>
          var rest := Drop(d.Content(), ReplyStart(d, sought, first, garbage));
          contents <= rest && |contents| == Min(|rest|, BUFFER_SIZE))
  }

  /** Opens the device, seeks if asked to, and reads to the end or to a full buffer,
      block by block. It hangs, holding the file mutex, exactly when the device is
      locked or this very seek locks it. */
  method ReadCharDevice(k: Kernel, sought: bool, command: bv32, offset: bv32, garbage: bv32, block: nat)
      returns (hung: bool, contents: seq<byte>)
    requires k.Valid() && 0 < block
    modifies k, k.dev, k.dev.ring, k.dev.ring.entry, k.dev.heap
    ensures k.Valid()
    ensures Replied(old(k.Abs()).dev, k.Abs().dev, sought, command, offset, garbage, hung, contents)
  {
    ghost var unused: Fd := AboveAll(k.fpos.Keys);
    assert unused !in k.fpos;
    var fd: Fd :| fd !in k.fpos;
    var _ := k.Syscall(Open(fd));
    if sought {
      var first := FirstByte(EncodeSeek(command, offset));
      var _ := k.Syscall(Ioctl(fd, true, first, garbage, false, false));
    }
    hung, contents := ReadAll(k, fd, block);
  }

  /** From position p on, a reader of this file has been given these bytes. */
  ghost predicate Given(s: Sys, fd: Fd, p: nat, got: seq<byte>) {
    fd in s.fpos && s.fpos[fd] == p + |got| && SliceAt(s.dev.Content(), p, got)
  }

  /** One more read gives more of the content, or finds its end, or hangs. */
  lemma ReadMore(s: Sys, fd: Fd, p: nat, got: seq<byte>, block: nat)
    requires Given(s, fd, p, got) && 0 < block
    ensures var (e, r) := Step(s, Read(fd, block, false, false));
            var bytes := if r.Data? then r.bytes else [];
            && e.dev == s.dev && Given(e, fd, p, got + bytes)
            && (r == Hung <==> s.dev.locked)
            && (!s.dev.locked ==> (bytes == [] <==> |s.dev.Content()| <= p + |got|))
  {
    ReadIsSlice(s.dev, s.fpos[fd], block, false);
    var r := Step(s, Read(fd, block, false, false)).1;
    SliceJoin(s.dev.Content(), s.dev.Content(), p, got, if r.Data? then r.bytes else []);
  }

  /** One read of the underlying file. */
  method ReadBlock(k: Kernel, fd: Fd, block: nat, got: seq<byte>, ghost d: Dev, ghost p: nat)
      returns (hung: bool, got': seq<byte>, ended: bool)
    requires k.Valid() && k.Abs().dev == d && Given(k.Abs(), fd, p, got) && 0 < block
    modifies k, k.dev, k.dev.ring, k.dev.ring.entry, k.dev.heap
    ensures k.Valid() && k.Abs().dev == d && Given(k.Abs(), fd, p, got')
    ensures hung <==> d.locked
    ensures if hung || ended then got' == got else |got| < |got'|
    ensures ended <==> !hung && |d.Content()| <= p + |got|
  {
    ReadMore(k.Abs(), fd, p, got, block);
    var r := k.Syscall(Read(fd, block, false, false));
    hung := r == Hung;
    got' := got + if r.Data? then r.bytes else [];
    ended := !hung && got' == got;
  }

  /** Reads until a buffer is full or the end is reached. */
  method ReadLoop(k: Kernel, fd: Fd, block: nat, ghost d: Dev, ghost p: nat)
      returns (hung: bool, contents: seq<byte>, ended: bool)
    requires k.Valid() && k.Abs().dev == d && Given(k.Abs(), fd, p, []) && 0 < block
    modifies k, k.dev, k.dev.ring, k.dev.ring.entry, k.dev.heap
    ensures k.Valid() && k.Abs().dev == d && Given(k.Abs(), fd, p, contents)
    ensures hung <==> d.locked
    ensures !hung ==> if ended then |d.Content()| <= p + |contents| else BUFFER_SIZE <= |contents|
  {
    hung, contents, ended := ReadBlock(k, fd, block, [], d, p);
    while |contents| < BUFFER_SIZE && !ended && !hung
      invariant k.Valid() && k.Abs().dev == d && Given(k.Abs(), fd, p, contents)
      invariant hung <==> d.locked
      invariant ended ==> |d.Content()| <= p + |contents|
      decreases BUFFER_SIZE - |contents|, !ended, !hung
    {
      hung, contents, ended := ReadBlock(k, fd, block, contents, d, p);
    }
  }

  /** fread of a whole buffer. */
  method ReadAll(k: Kernel, fd: Fd, block: nat) returns (hung: bool, contents: seq<byte>)
    requires k.Valid() && fd in k.fpos && 0 < block
    modifies k, k.dev, k.dev.ring, k.dev.ring.entry, k.dev.heap
    ensures k.Valid() && k.Abs().dev == old(k.Abs()).dev
    ensures hung <==> k.Abs().dev.locked
    ensures !hung ==>
              var rest := Drop(k.Abs().dev.Content(), old(k.fpos)[fd]);
              contents <= rest && |contents| == Min(|rest|, BUFFER_SIZE)
  {
    ghost var d, p := k.Abs().dev, k.fpos[fd];
    var ended;
    hung, contents, ended := ReadLoop(k, fd, block, d, p);
    if !hung {
      contents := FillBuffer(d.Content(), p, contents, ended);
    }
  }

  /** What fits the buffer of what was read. */
  method FillBuffer(ghost content: seq<byte>, ghost p: nat, got: seq<byte>, ended: bool) returns (r: seq<byte>)
    requires SliceAt(content, p, got)
    requires if ended then |content| <= p + |got| else BUFFER_SIZE <= |got|
    ensures var rest := Drop(content, p); r <= rest && |r| == Min(|rest|, BUFFER_SIZE)
  {
    r := got[..Min(|got|, BUFFER_SIZE)];
    ghost var all := Drop(content, p);
    if ended {
      SliceToEnd(content, p, got);
    } else {
      assert got == all[..|got|];
    }
  }

  // ---- handle_connection -------------------------------------------------------------------

  /** The readable entries from the command-th on, without the first bytes. */
  function FromEntry(d: Dev, command: nat, offset: nat): seq<byte> {
    var live := Last(d.committed);
    Drop(Concat(live[Min(command, |live|)..]), offset)
  }

  lemma SeekReply(d: Dev, command: bv32, offset: bv32, garbage: bv32)
    ensures var first := FirstByte(EncodeSeek(command, offset));
            var word := ReceivedWord(first, garbage);
            var reached := (command | (offset >> 4)) & 0xF;
            && DecodeCommand(word) == reached
            && Drop(d.Content(), ReplyStart(d, true, first, garbage))
               == FromEntry(d, reached as nat, (offset % 16) as nat)
  {
    SeekDecodes(command, offset, garbage);
    DropSeek(d, ((command | (offset >> 4)) & 0xF) as nat, (offset % 16) as nat);
  }

  /** The answer on a device that is already stuck or not. A seek leaves the device locked,
      and the connection stuck with the file mutex, exactly when the four bits that arrive
      as the command are ten or more; otherwise the reply starts at the byte that arrives
      as the offset, of the entry that arrives as the command. Without a seek command it
      starts at the first byte. It goes to the end of the content or of the buffer. */
  ghost predicate Replies(stuck: bool, e: Dev, chunks: seq<seq<byte>>, turns: seq<Turn>, hung: bool, reply: seq<byte>)
    requires |chunks| <= |turns|
  {
    && e.locked == hung
    && if Seeks(chunks) then
         var (command, offset) := LastPair(chunks[..Stops(chunks)], turns);
         SeekAnswer(stuck, e, command, offset, hung, reply)
       else
         && (hung <==> stuck)
         && (!hung ==> reply <= e.Content() && |reply| == Min(|e.Content()|, BUFFER_SIZE))
  }

  ghost predicate SeekAnswer(stuck: bool, e: Dev, command: bv32, offset: bv32, hung: bool, reply: seq<byte>) {
    var reached := (command | (offset >> 4)) & 0xF;
    && (hung <==> stuck || reached >= 10)
    && (!hung ==>
          var rest := FromEntry(e, reached as nat, (offset % 16) as nat);
          reply <= rest && |reply| == Min(|rest|, BUFFER_SIZE))
  }

  /** A pair in range arrives as it is. */
  lemma SeekInRange(e: Dev, command: bv32, offset: bv32, hung: bool, reply: seq<byte>)
    requires SeekAnswer(false, e, command, offset, hung, reply) && command < 10 && offset < 16
    ensures var rest := FromEntry(e, command as nat, offset as nat);
            !hung && reply <= rest && |reply| == Min(|rest|, BUFFER_SIZE)
  {
    assert (command | (offset >> 4)) & 0xF == command && offset % 16 == offset;
  }

  /** A connection handled, whatever the kernel refused it: it tried to write all that came
      before its first seek command, or through its first newline; the device holds what
      of that was stored; and the reply is as the device then is. */
  ghost predicate Handled(d: Dev, e: Dev, chunks: seq<seq<byte>>, turns: seq<Turn>, log: seq<Line>,
                          hung: bool, reply: seq<byte>)
    requires |chunks| <= |turns|
  {
    && Sensible(log) && OnlyOf(log, 0) && OfferedBy(log, 0) == Written(chunks)
    && Framed(d, e, log)
    && Replies(d.locked, e, chunks, turns, hung, reply)
  }

  /** A connection answered: all that it tried to write was appended. */
  ghost predicate Answered(d: Dev, e: Dev, chunks: seq<seq<byte>>, turns: seq<Turn>, hung: bool, reply: seq<byte>)
    requires |chunks| <= |turns|
  {
    e == Appended(d, Written(chunks)).(locked := hung) && Replies(false, e, chunks, turns, hung, reply)
  }

  /** What the loop logged. */
  ghost function LoopLog(sys: Sys, chunks: seq<seq<byte>>, evs: seq<Event>): seq<Line> {
    After(Server(sys, [NewConn(chunks)], []), evs).log
  }

  lemma LoopLogged(sys: Sys, chunks: seq<seq<byte>>, evs: seq<Event>, conn: Conn, now: Sys)
    requires Solo(sys, chunks, evs) && Loop(sys, chunks, evs, conn, now) && conn.got == Stops(chunks)
    ensures var log := LoopLog(sys, chunks, evs);
            && Sensible(log) && OnlyOf(log, 0) && OfferedBy(log, 0) == Written(chunks)
            && Framed(sys.dev, now.dev, log)
  {
    var s := Server(sys, [NewConn(chunks)], []);
    FramedEmpty(sys.dev);
    ServerFraming(sys.dev, s, evs);
    SensibleAfter(s, evs);
    AloneLines(s, evs, 0);
    NewOk(chunks);
    ConnAfter(s, evs, 0);
  }

  lemma {:induction false} NoIoctlKeepsLock(s: Sys, calls: seq<Call>)
    requires forall i :: 0 <= i < |calls| ==> !calls[i].Ioctl?
    ensures Run(s, calls).dev.locked == s.dev.locked
  {
    if calls != [] {
      NoIoctlKeepsLock(s, calls[..|calls| - 1]);
      StepLocked(Run(s, calls[..|calls| - 1]), calls[|calls| - 1]);
    }
  }

  /** The loop neither takes the lock for good nor gets past a device that is locked. */
  lemma {:induction false} LoopLock(sys: Sys, conn: Conn, turns: seq<Turn>)
    requires TurnsFor(conn.chunks, turns)
    ensures var d := LoopEnd(sys, conn, turns).0.dev;
            d.locked == sys.dev.locked && (sys.dev.locked ==> d == sys.dev)
    decreases |conn.chunks| - conn.got
  {
    if conn.open && conn.got < |conn.chunks| {
      var calls := ReceiveCalls(conn, turns[conn.got]);
      NoIoctlKeepsLock(sys, calls);
      if sys.dev.locked { LockedFreezes(sys, calls); }
      LoopLock(Run(sys, calls), ReceiveConn(conn, turns[conn.got]), turns);
    }
  }

  /** The reply says what the loop left. */
  lemma ReplyReplies(sys: Sys, chunks: seq<seq<byte>>, turns: seq<Turn>, conn: Conn, now: Sys,
                     e: Dev, garbage: bv32, hung: bool, reply: seq<byte>)
    requires TurnsFor(chunks, turns)
    requires (now, conn) == LoopEnd(sys, NewConn(chunks), turns)
    requires Replied(now.dev, e, conn.sought, conn.command, conn.offset, garbage, hung, reply)
    ensures Replies(sys.dev.locked, e, chunks, turns, hung, reply)
    ensures sys.dev.locked ==> hung && e == sys.dev
    ensures conn.got == Stops(chunks)
  {
    LoopOkNew(chunks, turns);
    LoopConn(sys, NewConn(chunks), turns);
    LoopLock(sys, NewConn(chunks), turns);
    if conn.sought {
      SeekReply(now.dev, conn.command, conn.offset, garbage);
    } else {
      assert Drop(now.dev.Content(), 0) == now.dev.Content();
    }
  }

  /** A connection from first byte to reply, with no other connection active. On a locked
      device it hangs and changes nothing. On one that is not locked and has room for what
      the connection writes, all of it is appended, provided that the kernel refuses no
      allocation within the limit, cuts no copy short and interrupts no write. */
  method HandleConnection(k: Kernel, chunks: seq<seq<byte>>, turns: seq<Turn>, garbage: bv32, block: nat)
      returns (hung: bool, reply: seq<byte>, ghost log: seq<Line>)
    requires k.Valid() && TurnsFor(chunks, turns) && 0 < block
    modifies k, k.dev, k.dev.ring, k.dev.ring.entry, k.dev.heap
    ensures k.Valid()
    ensures Handled(old(k.Abs()).dev, k.Abs().dev, chunks, turns, log, hung, reply)
    ensures old(k.Abs()).dev.locked ==> hung && k.Abs().dev == old(k.Abs()).dev
    ensures !old(k.Abs()).dev.locked && |old(k.Abs()).dev.pending| + |Written(chunks)| <= old(k.Abs()).dev.limit
            && WillingAll(turns) ==>
              Answered(old(k.Abs()).dev, k.Abs().dev, chunks, turns, hung, reply)
  {
    k.dev.DeviceInv();
    ghost var sys := k.Abs();
    ghost var evs;
    var conn;
    conn, evs := ReceiveLoop(k, chunks, turns);
    ghost var now := k.Abs();
    hung, reply := ReadCharDevice(k, conn.sought, conn.command, conn.offset, garbage, block);
    log := LoopLog(sys, chunks, evs);
    ReplyReplies(sys, chunks, turns, conn, now, k.Abs().dev, garbage, hung, reply);
    LoopLogged(sys, chunks, evs, conn, now);
    if Room(sys.dev, |Written(chunks)|) && WillingAll(turns) {
      LoopOkNew(chunks, turns);
      LoopDevice(sys, NewConn(chunks), turns, sys.dev);
    }
  }

  // ---- What this means for clients ----------------------------------------------------------

  /** A packet, on a device with nothing pending: it becomes exactly one entry, and the
      client gets back the last ten entries, its own last, as far as they fit. */
  lemma PacketServed(d: Dev, e: Dev, chunks: seq<seq<byte>>, turns: seq<Turn>, hung: bool, reply: seq<byte>)
    requires |chunks| <= |turns| && Room(d, |Written(chunks)|) && Answered(d, e, chunks, turns, hung, reply)
    requires d.pending == [] && !Seeks(chunks) && EndsInNewline(Sent(chunks))
    ensures e.committed == d.committed + [Sent(chunks)] && e.pending == []
    ensures var all := Concat(Last(d.committed + [Sent(chunks)]));
            && !hung && reply <= all && |reply| == Min(|all|, BUFFER_SIZE)
            && (|all| <= BUFFER_SIZE ==> reply == all)
    ensures var packet := UpToNewline(Concat(chunks)); Sent(chunks) == packet <==> NUL !in packet
  {
    WrittenShape(chunks);
    AppendedText(d, Written(chunks));
    assert [] + Sent(chunks) == Sent(chunks);
    ChunkingIndependentIff(chunks);
  }

  /** A seek request, with no other seek command in a later chunk than number i: hung or
      not, and from where on the reply is, told from what was read behind that command. */
  lemma SeekServed(d: Dev, e: Dev, chunks: seq<seq<byte>>, turns: seq<Turn>, hung: bool, reply: seq<byte>, i: nat)
    requires |chunks| <= |turns| && Room(d, |Written(chunks)|) && Answered(d, e, chunks, turns, hung, reply)
    requires i < Stops(chunks) && HasToken(Payload(chunks[i]))
    requires forall j :: i < j < Stops(chunks) ==> !HasToken(Payload(chunks[j]))
    ensures var (command, offset) := ((turns[i].command | (turns[i].offset >> 4)) & 0xF, turns[i].offset % 16);
            var live := Last(d.committed);
            var rest := Drop(Concat(live[Min(command as nat, |live|)..]), offset as nat);
            && e.committed == d.committed && e.pending == d.pending + Written(chunks)
            && (hung <==> command >= 10) && (e.locked <==> hung)
            && (!hung ==> reply <= rest && (|rest| <= BUFFER_SIZE ==> reply == rest)
                          && |reply| == Min(|rest|, BUFFER_SIZE))
  {
    TokenSeeks(chunks, Stops(chunks), i);
    WrittenShape(chunks);
    NoNewlineEnds(Written(chunks));
    AppendedPending(d, Written(chunks));
    LastPairAt(chunks, turns, Stops(chunks), i);
  }

  /** A seek command among the first chunks is found. */
  lemma {:induction false} TokenSeeks(chunks: seq<seq<byte>>, n: nat, i: nat)
    requires i < n <= |chunks| && HasToken(Payload(chunks[i]))
    ensures FirstToken(chunks[..n]) < n
  {
    if 0 < i {
      TokenSeeks(chunks[1..], n - 1, i - 1);
      assert chunks[..n][1..] == chunks[1..][..n - 1];
    }
  }

  /** The pair kept is the one read from the last seek command. */
  lemma {:induction false} LastPairAt(chunks: seq<seq<byte>>, turns: seq<Turn>, n: nat, i: nat)
    requires i < n <= |chunks| <= |turns| && HasToken(Payload(chunks[i]))
    requires forall j :: i < j < n ==> !HasToken(Payload(chunks[j]))
    ensures LastPair(chunks[..n], turns) == (turns[i].command, turns[i].offset)
  {
    PairSnoc(chunks, turns, n - 1, HasToken(Payload(chunks[n - 1])));
    if i < n - 1 {
      LastPairAt(chunks, turns, n - 1, i);
    }
  }

  /** What is written without a newline stays pending, for whoever comes next. */
  lemma UnterminatedServed(d: Dev, e: Dev, chunks: seq<seq<byte>>, turns: seq<Turn>, hung: bool, reply: seq<byte>)
    requires |chunks| <= |turns| && Room(d, |Written(chunks)|) && Answered(d, e, chunks, turns, hung, reply)
    requires !EndsInNewline(Written(chunks))
    ensures e.committed == d.committed && e.pending == d.pending + Written(chunks)
  {
    AppendedPending(d, Written(chunks));
  }

  /** A seek command before which nothing was written, wherever its newline comes, leaves the
      device as it was; one after data leaves that data pending, and the next connection's
      packet is committed with it in front. So that packet is whole if and only if nothing
      was pending before and every chunk that came before the seek command was empty to a
      C string function. */
  lemma SeekLeavesData(d: Dev, e: Dev, f: Dev, chunks: seq<seq<byte>>, turns: seq<Turn>, reply: seq<byte>,
                       chunks': seq<seq<byte>>, turns': seq<Turn>, hung': bool, reply': seq<byte>)
    requires |chunks| <= |turns| && Room(d, |Written(chunks)|) && Answered(d, e, chunks, turns, false, reply)
    requires |chunks'| <= |turns'| && Room(e, |Written(chunks')|) && Answered(e, f, chunks', turns', hung', reply')
    requires Seeks(chunks) && !Seeks(chunks') && EndsInNewline(Sent(chunks'))
    ensures Written(chunks) == [] ==> e == d
    ensures f.committed == d.committed + [d.pending + Written(chunks) + Sent(chunks')] && f.pending == []
    ensures f.committed == d.committed + [Sent(chunks')]
       <==> d.pending == [] && AllMute(chunks[..FirstToken(chunks[..Stops(chunks)])])
  {
    WrittenShape(chunks);
    NoNewlineEnds(Written(chunks));
    UnterminatedServed(d, e, chunks, turns, false, reply);
    WrittenShape(chunks');
    AppendedText(e, Written(chunks'));
    WrittenEmptyIff(chunks);
    OnlyLongerIff(d.committed, d.pending, Written(chunks), Sent(chunks'));
  }

  lemma OnlyLongerIff(entries: seq<seq<byte>>, a: seq<byte>, b: seq<byte>, x: seq<byte>)
    ensures entries + [a + b + x] == entries + [x] <==> a == [] && b == []
  {
    assert a == [] && b == [] ==> a + b + x == x;
    if entries + [a + b + x] == entries + [x] {
      assert (entries + [a + b + x])[|entries|] == (entries + [x])[|entries|];
      assert |a + b + x| == |x|;
    }
  }

  /** "A", and then a seek command and its newline. */
  function DataThenSeek(): seq<seq<byte>> {
    [[65], TOKEN + [48, 44, 48, NEWLINE]]
  }

  lemma DataThenSeekWrites()
    ensures Seeks(DataThenSeek()) && Written(DataThenSeek()) == [65]
  {
    var a, z := [65], TOKEN + [48, 44, 48, NEWLINE];
    OneByte(65);
    ShortNoToken(a);
    TokenChunk([48, 44, 48, NEWLINE]);
    assert [a, z][1..] == [z];
    assert Stops([z]) == 1 && Stops([a, z]) == 2;
    assert FirstToken([z]) == 0 && FirstToken([a, z]) == 1;
    assert [a, z][..2] == [a, z] && [a, z][..1] == [a];
    assert Sent([a]) == [65] + Sent([]);
  }

  /** Such a connection, and then one that sends "B" and a newline: "AB" is committed. */
  lemma SeekDataRun(limit: nat, turns: seq<Turn>, turns': seq<Turn>)
    requires 3 <= limit && 10 * limit < TWO31
    requires TurnsFor(DataThenSeek(), turns) && WillingAll(turns)
    requires TurnsFor([[66, NEWLINE]], turns') && WillingAll(turns')
    ensures var m := LoopEnd(Init(limit), NewConn(DataThenSeek()), turns).0;
            LoopEnd(m, NewConn([[66, NEWLINE]]), turns').0.dev.committed == [[65, 66, NEWLINE]]
  {
    DataThenSeekWrites();
    LineWrites(66);
    LoopOkNew(DataThenSeek(), turns);
    LoopOkNew([[66, NEWLINE]], turns');
    var s := Init(limit);
    LoopDevice(s, NewConn(DataThenSeek()), turns, s.dev);
    var m := LoopEnd(s, NewConn(DataThenSeek()), turns).0;
    TwoTexts(s.dev, m.dev);
    LoopInv(s, NewConn(DataThenSeek()), turns);
    LoopDevice(m, NewConn([[66, NEWLINE]]), turns', m.dev);
  }

  lemma TwoTexts(d: Dev, e: Dev)
    requires Room(d, 3) && d.committed == [] && d.pending == [] && e == Appended(d, [65])
    ensures Room(e, 2) && Appended(e, [66, NEWLINE]).committed == [[65, 66, NEWLINE]]
  {
    AppendedPending(d, [65]);
    AppendedText(e, [66, NEWLINE]);
    assert [] + [65] + [66, NEWLINE] == [65, 66, NEWLINE];
  }

  lemma LineWrites(b: byte)
    requires b != NUL && b != NEWLINE
    ensures Written([[b, NEWLINE]]) == [b, NEWLINE]
  {
    TwoBytes(b);
    ShortNoToken([b, NEWLINE]);
    assert [[b, NEWLINE]][1..] == [] && [[b, NEWLINE]][..1] == [[b, NEWLINE]];
    assert Stops([[b, NEWLINE]]) == 1;
    assert FirstToken([[b, NEWLINE]]) == 1 + FirstToken([]);
    assert Sent([[b, NEWLINE]]) == [b, NEWLINE] + [];
  }

  lemma {:induction false} LoopInv(sys: Sys, conn: Conn, turns: seq<Turn>)
    requires TurnsFor(conn.chunks, turns) && sys.dev.Inv()
    ensures LoopEnd(sys, conn, turns).0.dev.Inv()
    decreases |conn.chunks| - conn.got
  {
    if conn.open && conn.got < |conn.chunks| {
      RunInv(sys, ReceiveCalls(conn, turns[conn.got]));
      LoopInv(Run(sys, ReceiveCalls(conn, turns[conn.got])), ReceiveConn(conn, turns[conn.got]), turns);
    }
  }
}
