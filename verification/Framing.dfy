/** Many connections append to one device, one chunk at a time. The file mutex is
    held for a chunk and released between chunks, so chunks of different
    connections interleave in any order, and any write may be refused. */
module Framing {
  import opened Bytes
  import opened DeviceSpec
  import opened DeviceRuns
  import opened Readers
  import opened Extraction

  // ---- One connection ---------------------------------------------------------------

  datatype Conn = Conn(
    chunks: seq<seq<byte>>,  // what its peer sends, as recv cuts it
    got: nat,                // chunks received so far
    kept: nat,               // of which handed to the device
    sought: bool,            // a seek command was seen
    command: bv32,
    offset: bv32,
    open: bool               // still receiving
  )

  function NewConn(chunks: seq<seq<byte>>): Conn {
    Conn(chunks, 0, 0, false, 0, 0, true)
  }

  /** What the kernel decides about one write: how much of it can be copied, whether its
      block and the block to merge it in are granted, and whether a signal interrupts it. */
  datatype Answer = Answer(copied: nat, bufOk: bool, tempOk: bool, interrupted: bool)

  /** Nothing but the allocation limit and the lock stands in the way of this write; the
      second block counts only if there is something to merge. */
  predicate Granted(w: seq<byte>, a: Answer, merging: bool) {
    a.copied == |w| && a.bufOk && !a.interrupted && (merging ==> a.tempOk)
  }

  /** What libraries and kernel decide while one chunk is handled: the descriptor, how
      stdio cuts the text into writes, what becomes of each, and what sscanf reads after
      the token. */
  datatype Turn = Turn(fd: Fd, frags: seq<seq<byte>>, answers: seq<Answer>, command: bv32, offset: bv32)

  /** Every fragment is nonempty and has an answer. */
  predicate Tryable(frags: seq<seq<byte>>, answers: seq<Answer>) {
    |answers| == |frags|
    && forall i :: 0 <= i < |frags| ==> frags[i] != [] && answers[i].copied <= |frags[i]|
  }

  predicate TurnFor(chunk: seq<byte>, t: Turn) {
    Tryable(t.frags, t.answers) && Concat(t.frags) == Payload(chunk)
  }

  function Try(fd: Fd, w: seq<byte>, a: Answer): Call
    requires w != [] && a.copied <= |w|
  {
    Write(fd, w, a.copied, a.bufOk, a.tempOk, a.interrupted)
  }

  /** stdio tries each fragment once, whatever became of the ones before. */
  function Tries(fd: Fd, frags: seq<seq<byte>>, answers: seq<Answer>): (r: seq<Call>)
    requires Tryable(frags, answers)
    ensures |r| == |frags|
  {
    seq(|frags|, i requires 0 <= i < |frags| => Try(fd, frags[i], answers[i]))
  }

  /** One pass of the receive loop, as the connection sees it. */
  function ReceiveConn(conn: Conn, t: Turn): Conn
    requires conn.got < |conn.chunks|
  {
    Pass(conn, t, HasToken(Payload(conn.chunks[conn.got])))
  }

  /** The same, given whether the chunk holds a seek command. */
  function Pass(conn: Conn, t: Turn, token: bool): Conn
    requires conn.got < |conn.chunks|
  {
    var sought := conn.sought || token;
    conn.(got := conn.got + 1,
          kept := conn.kept + (if sought then 0 else 1),
          sought := sought,
          command := if token then t.command else conn.command,
          offset := if token then t.offset else conn.offset,
          open := NEWLINE !in conn.chunks[conn.got])
  }

  /** The system calls it makes: none once a seek command was seen. */
  function ReceiveCalls(conn: Conn, t: Turn): seq<Call>
    requires conn.got < |conn.chunks| && TurnFor(conn.chunks[conn.got], t)
  {
    PassCalls(conn, t, HasToken(Payload(conn.chunks[conn.got])))
  }

  function TurnCalls(t: Turn): seq<Call>
    requires Tryable(t.frags, t.answers)
  {
    [Open(t.fd)] + Tries(t.fd, t.frags, t.answers)
  }

  function PassCalls(conn: Conn, t: Turn, token: bool): seq<Call>
    requires conn.got < |conn.chunks| && TurnFor(conn.chunks[conn.got], t)
  {
    if conn.sought || token then [] else TurnCalls(t)
  }

  // ---- The server ---------------------------------------------------------------------

  /** One write of a connection: what it tried to write, and what of it was stored. */
  datatype Line = Line(conn: nat, data: seq<byte>, stored: seq<byte>)

  function LineOf(conn: nat, s: Sys, c: Call): seq<Line> {
    if c.Write? then [Line(conn, c.data, StoredBy(s, c))] else []
  }

  /** The writes among a connection's calls. */
  function LinesOf(conn: nat, s: Sys, calls: seq<Call>): seq<Line> {
    if calls == [] then []
    else
      var front, c := calls[..|calls| - 1], calls[|calls| - 1];
      LinesOf(conn, s, front) + LineOf(conn, Run(s, front), c)
  }

  datatype Server = Server(sys: Sys, conns: seq<Conn>, log: seq<Line>)

  datatype Event =
    | Accept(chunks: seq<seq<byte>>)
    | Receive(conn: nat, turn: Turn)
    | HangUp(conn: nat)
    | Others(calls: seq<Call>)       // calls by anybody that write nothing

  predicate Enabled(s: Server, ev: Event) {
    match ev
    case Accept(_) => true
    case Receive(c, t) =>
      && c < |s.conns| && s.conns[c].open && s.conns[c].got < |s.conns[c].chunks|
      && TurnFor(s.conns[c].chunks[s.conns[c].got], t)
    case HangUp(c) => c < |s.conns|
    case Others(calls) => forall i :: 0 <= i < |calls| ==> !calls[i].Write?
  }

  function Next(s: Server, ev: Event): Server
    requires Enabled(s, ev)
  {
    match ev
    case Accept(chunks) => s.(conns := s.conns + [NewConn(chunks)])
    case Receive(c, t) =>
      var calls := ReceiveCalls(s.conns[c], t);
      Server(Run(s.sys, calls), s.conns[c := ReceiveConn(s.conns[c], t)], s.log + LinesOf(c, s.sys, calls))
    case HangUp(c) => s.(conns := s.conns[c := s.conns[c].(open := false)])
    case Others(calls) => s.(sys := Run(s.sys, calls))
  }

  ghost function After(s: Server, evs: seq<Event>): Server {
    if evs == [] then s
    else
      var m := After(s, evs[..|evs| - 1]);
      if Enabled(m, evs[|evs| - 1]) then Next(m, evs[|evs| - 1]) else m
  }

  /** Every event of the run could happen when it did. */
  ghost predicate Happens(s: Server, evs: seq<Event>) {
    evs == [] ||
    (Happens(s, evs[..|evs| - 1]) && Enabled(After(s, evs[..|evs| - 1]), evs[|evs| - 1]))
  }

  // ---- Every run, whether its writes succeed or not -------------------------------------

  function CallsOf(s: Server, ev: Event): seq<Call>
    requires Enabled(s, ev)
  {
    match ev
    case Receive(c, t) => ReceiveCalls(s.conns[c], t)
    case Others(calls) => calls
    case _ => []
  }

  /** The system calls of a run of the server, in order. */
  ghost function AllCalls(s: Server, evs: seq<Event>): seq<Call> {
    if evs == [] then []
    else
      var front, ev := evs[..|evs| - 1], evs[|evs| - 1];
      AllCalls(s, front) + if Enabled(After(s, front), ev) then CallsOf(After(s, front), ev) else []
  }

  /** The server reaches the device through its system calls only. */
  lemma {:induction false} AfterIsRun(s: Server, evs: seq<Event>)
    ensures After(s, evs).sys == Run(s.sys, AllCalls(s, evs))
  {
    if evs != [] {
      var front, ev := evs[..|evs| - 1], evs[|evs| - 1];
      AfterIsRun(s, front);
      var more := if Enabled(After(s, front), ev) then CallsOf(After(s, front), ev) else [];
      RunAppend(s.sys, AllCalls(s, front), more);
      assert After(s, evs).sys == Run(After(s, front).sys, more);
    }
  }

  lemma AfterDevice(s: Server, evs: seq<Event>)
    requires s.sys.dev.Inv()
    ensures After(s, evs).sys.dev.Inv() && s.sys.dev.committed <= After(s, evs).sys.dev.committed
    ensures After(s, evs).sys.dev.limit == s.sys.dev.limit
  {
    AfterIsRun(s, evs);
    RunInv(s.sys, AllCalls(s, evs));
    RunGrows(s.sys, AllCalls(s, evs));
  }

  // ---- The log ------------------------------------------------------------------------------

  /** A line as the framing sees it. */
  function PieceOf(line: Line): Piece {
    Piece(line.stored, line.stored == line.data && EndsInNewline(line.data))
  }

  function Pieces(log: seq<Line>): seq<Piece> {
    if log == [] then [] else Pieces(log[..|log| - 1]) + [PieceOf(log[|log| - 1])]
  }

  /** Everything that was stored. */
  function LogBytes(log: seq<Line>): seq<byte> {
    if log == [] then [] else LogBytes(log[..|log| - 1]) + log[|log| - 1].stored
  }

  /** What was stored of one connection's writes, in order. */
  function TextOf(log: seq<Line>, c: nat): seq<byte> {
    if log == [] then []
    else TextOf(log[..|log| - 1], c) + if log[|log| - 1].conn == c then log[|log| - 1].stored else []
  }

  /** What that connection tried to write. */
  function OfferedBy(log: seq<Line>, c: nat): seq<byte> {
    if log == [] then []
    else OfferedBy(log[..|log| - 1], c) + if log[|log| - 1].conn == c then log[|log| - 1].data else []
  }

  /** The log mentions only connections below n. */
  ghost predicate Within(log: seq<Line>, n: nat) {
    log == [] || (log[|log| - 1].conn < n && Within(log[..|log| - 1], n))
  }

  /** Lines of connection c only. */
  ghost predicate OnlyOf(log: seq<Line>, c: nat) {
    log == [] || (log[|log| - 1].conn == c && OnlyOf(log[..|log| - 1], c))
  }

  /** A write tries something and stores what it stores from the start of it. */
  ghost predicate Sensible(log: seq<Line>) {
    log == [] ||
    (log[|log| - 1].data != [] && log[|log| - 1].stored <= log[|log| - 1].data && Sensible(log[..|log| - 1]))
  }

  lemma LogSnoc(log: seq<Line>, line: Line, c: nat)
    ensures Pieces(log + [line]) == Pieces(log) + [PieceOf(line)]
    ensures LogBytes(log + [line]) == LogBytes(log) + line.stored
    ensures TextOf(log + [line], c) == TextOf(log, c) + if line.conn == c then line.stored else []
    ensures OfferedBy(log + [line], c) == OfferedBy(log, c) + if line.conn == c then line.data else []
  {
  }

  lemma {:induction false} LogAppend(log: seq<Line>, more: seq<Line>, c: nat)
    ensures Pieces(log + more) == Pieces(log) + Pieces(more)
    ensures LogBytes(log + more) == LogBytes(log) + LogBytes(more)
    ensures TextOf(log + more, c) == TextOf(log, c) + TextOf(more, c)
    ensures OfferedBy(log + more, c) == OfferedBy(log, c) + OfferedBy(more, c)
  {
    if more == [] {
      assert log + more == log;
    } else {
      var front, line := more[..|more| - 1], more[|more| - 1];
      assert more == front + [line] && log + more == (log + front) + [line];
      LogAppend(log, front, c);
      LogSnoc(log + front, line, c);
      LogSnoc(front, line, c);
      Associates(Pieces(log), Pieces(front), [PieceOf(line)]);
      Associates(LogBytes(log), LogBytes(front), line.stored);
      Associates(TextOf(log, c), TextOf(front, c), if line.conn == c then line.stored else []);
      Associates(OfferedBy(log, c), OfferedBy(front, c), if line.conn == c then line.data else []);
    }
  }

  lemma {:induction false} ShapeAppend(log: seq<Line>, more: seq<Line>, n: nat)
    ensures Sensible(log + more) <==> Sensible(log) && Sensible(more)
    ensures Within(log + more, n) <==> Within(log, n) && Within(more, n)
    ensures OnlyOf(log + more, n) <==> OnlyOf(log, n) && OnlyOf(more, n)
  {
    if more == [] {
      assert log + more == log;
    } else {
      assert (log + more)[..|log + more| - 1] == log + more[..|more| - 1];
      ShapeAppend(log, more[..|more| - 1], n);
    }
  }

  lemma {:induction false} WithinMore(log: seq<Line>, n: nat, m: nat)
    requires Within(log, n) && n <= m
    ensures Within(log, m)
  {
    if log != [] {
      WithinMore(log[..|log| - 1], n, m);
    }
  }

  /** A connection that no line mentions. */
  lemma {:induction false} NoLines(log: seq<Line>, n: nat)
    requires Within(log, n)
    ensures TextOf(log, n) == [] && OfferedBy(log, n) == []
  {
    if log != [] {
      NoLines(log[..|log| - 1], n);
    }
  }

  /** One connection's lines. */
  lemma {:induction false} OnlyLines(log: seq<Line>, c: nat, d: nat)
    requires OnlyOf(log, c)
    ensures TextOf(log, c) == LogBytes(log)
    ensures d != c ==> TextOf(log, d) == [] && OfferedBy(log, d) == []
    ensures c < d ==> Within(log, d)
  {
    if log != [] {
      OnlyLines(log[..|log| - 1], c, d);
    }
  }

  lemma {:induction false} LinesShape(conn: nat, s: Sys, calls: seq<Call>)
    ensures Sensible(LinesOf(conn, s, calls)) && OnlyOf(LinesOf(conn, s, calls), conn)
  {
    if calls != [] {
      var front, c := calls[..|calls| - 1], calls[|calls| - 1];
      LinesShape(conn, s, front);
      var more := LineOf(conn, Run(s, front), c);
      OneLine(conn, Run(s, front), c);
      ShapeAppend(LinesOf(conn, s, front), more, conn);
    }
  }

  lemma OneLine(conn: nat, s: Sys, c: Call)
    ensures Sensible(LineOf(conn, s, c)) && OnlyOf(LineOf(conn, s, c), conn)
  {
    if c.Write? {
      var line := Line(conn, c.data, StoredBy(s, c));
      assert [line][..0] == [];
    }
  }

  lemma {:induction false} QuietLines(conn: nat, s: Sys, calls: seq<Call>)
    requires forall i :: 0 <= i < |calls| ==> !calls[i].Write?
    ensures LinesOf(conn, s, calls) == []
  {
    if calls != [] {
      QuietLines(conn, s, calls[..|calls| - 1]);
    }
  }

  /** What one turn tries to write is its text. */
  lemma {:induction false} TriesOffer(conn: nat, s: Sys, fd: Fd, frags: seq<seq<byte>>, answers: seq<Answer>)
    requires Tryable(frags, answers)
    ensures OfferedBy(LinesOf(conn, s, Tries(fd, frags, answers)), conn) == Concat(frags)
  {
    if frags != [] {
      var n := |frags| - 1;
      var calls := Tries(fd, frags[..n], answers[..n]);
      TriesOffer(conn, s, fd, frags[..n], answers[..n]);
      TriesSnoc(fd, frags, answers);
      OfferedSnoc(conn, s, calls, Try(fd, frags[n], answers[n]));
      ConcatLast(frags);
    }
  }

  lemma OfferedSnoc(conn: nat, s: Sys, calls: seq<Call>, c: Call)
    requires c.Write?
    ensures OfferedBy(LinesOf(conn, s, calls + [c]), conn) == OfferedBy(LinesOf(conn, s, calls), conn) + c.data
  {
    LinesSnoc(conn, s, calls, c);
    LogSnoc(LinesOf(conn, s, calls), Line(conn, c.data, StoredBy(Run(s, calls), c)), conn);
  }

  lemma TriesSnoc(fd: Fd, frags: seq<seq<byte>>, answers: seq<Answer>)
    requires Tryable(frags, answers) && frags != []
    ensures var n := |frags| - 1;
            Tries(fd, frags, answers) == Tries(fd, frags[..n], answers[..n]) + [Try(fd, frags[n], answers[n])]
  {
  }

  lemma LinesSnoc(conn: nat, s: Sys, calls: seq<Call>, c: Call)
    ensures LinesOf(conn, s, calls + [c]) == LinesOf(conn, s, calls) + LineOf(conn, Run(s, calls), c)
    ensures Run(s, calls + [c]) == Step(Run(s, calls), c).0
  {
    assert (calls + [c])[..|calls|] == calls;
  }

  /** Opening the device first changes neither it nor the log. */
  lemma TurnLines(conn: nat, s: Sys, t: Turn)
    requires Tryable(t.frags, t.answers)
    ensures var o := Step(s, Open(t.fd)).0;
            && o.dev == s.dev && t.fd in o.fpos
            && LinesOf(conn, s, TurnCalls(t)) == LinesOf(conn, o, Tries(t.fd, t.frags, t.answers))
            && Run(s, TurnCalls(t)) == Run(o, Tries(t.fd, t.frags, t.answers))
  {
    RunOne(s, Open(t.fd));
    LinesAppend(conn, s, [Open(t.fd)], Tries(t.fd, t.frags, t.answers));
    QuietLines(conn, s, [Open(t.fd)]);
    RunAppend(s, [Open(t.fd)], Tries(t.fd, t.frags, t.answers));
  }

  lemma {:induction false} LinesAppend(conn: nat, s: Sys, a: seq<Call>, b: seq<Call>)
    ensures LinesOf(conn, s, a + b) == LinesOf(conn, s, a) + LinesOf(conn, Run(s, a), b)
  {
    if b == [] {
      assert a + b == a;
    } else {
      var front, c := b[..|b| - 1], b[|b| - 1];
      assert b == front + [c] && a + b == (a + front) + [c];
      LinesAppend(conn, s, a, front);
      LinesSnoc(conn, s, a + front, c);
      LinesSnoc(conn, Run(s, a), front, c);
      RunAppend(s, a, front);
      Associates(LinesOf(conn, s, a), LinesOf(conn, Run(s, a), front), LineOf(conn, Run(s, a + front), c));
    }
  }

  // ---- Framing, whatever is refused ---------------------------------------------------------

  /** The device holds the log, cut after every line that was stored whole and ends in a
      newline. */
  ghost predicate Framed(base: Dev, d: Dev, log: seq<Line>) {
    && d.committed == base.committed + Entries(base.pending, Pieces(log))
    && d.pending == Tail(base.pending, Pieces(log))
  }

  lemma FramedEmpty(d: Dev)
    ensures Framed(d, d, [])
  {
    assert Joined([]) == [];
  }

  lemma FramedSnoc(base: Dev, d: Dev, e: Dev, log: seq<Line>, line: Line)
    requires Framed(base, d, log)
    requires e.committed == d.committed + Closed(d.pending, PieceOf(line))
    requires e.pending == Left(d.pending, PieceOf(line))
    ensures Framed(base, e, log + [line])
  {
    LogSnoc(log, line, 0);
    FramingSnoc(base.pending, Pieces(log), PieceOf(line));
    Associates(base.committed, Entries(base.pending, Pieces(log)), Closed(d.pending, PieceOf(line)));
  }

  /** What one call does to the device is what its line says, refused or not. */
  lemma StepLine(conn: nat, s: Sys, c: Call)
    requires c.Write?
    ensures var (d, e, p) := (s.dev, Step(s, c).0.dev, PieceOf(Line(conn, c.data, StoredBy(s, c))));
            e.committed == d.committed + Closed(d.pending, p) && e.pending == Left(d.pending, p)
  {
    StepStores(s, c);
    var stored := StoredBy(s, c);
    assert stored == c.data <==> |stored| == |c.data|;
  }

  lemma {:induction false} RunFramed(base: Dev, conn: nat, s: Sys, calls: seq<Call>, log: seq<Line>)
    requires Framed(base, s.dev, log)
    ensures Framed(base, Run(s, calls).dev, log + LinesOf(conn, s, calls))
  {
    if calls == [] {
      assert log + LinesOf(conn, s, calls) == log;
    } else {
      var front, c := calls[..|calls| - 1], calls[|calls| - 1];
      RunFramed(base, conn, s, front, log);
      assert calls == front + [c];
      LinesSnoc(conn, s, front, c);
      StepFramed(base, conn, Run(s, front), c, log + LinesOf(conn, s, front));
      Associates(log, LinesOf(conn, s, front), LineOf(conn, Run(s, front), c));
    }
  }

  lemma StepFramed(base: Dev, conn: nat, s: Sys, c: Call, log: seq<Line>)
    requires Framed(base, s.dev, log)
    ensures Framed(base, Step(s, c).0.dev, log + LineOf(conn, s, c))
  {
    if c.Write? {
      StepLine(conn, s, c);
      FramedSnoc(base, s.dev, Step(s, c).0.dev, log, Line(conn, c.data, StoredBy(s, c)));
    } else {
      StepStores(s, c);
      assert log + LineOf(conn, s, c) == log;
    }
  }

  lemma NextFramed(base: Dev, s: Server, ev: Event)
    requires Enabled(s, ev) && Framed(base, s.sys.dev, s.log)
    ensures Framed(base, Next(s, ev).sys.dev, Next(s, ev).log)
  {
    match ev
    case Accept(_) =>
    case Receive(c, t) => RunFramed(base, c, s.sys, ReceiveCalls(s.conns[c], t), s.log);
    case HangUp(_) =>
    case Others(calls) =>
      RunFramed(base, 0, s.sys, calls, s.log);
      QuietLines(0, s.sys, calls);
      assert s.log + [] == s.log;
  }

  /** Whatever connections do and whichever of their writes are refused, cut short or
      interrupted, and whoever else holds or locks the device: at any time it holds what
      the log says was stored, cut after each whole line that ends in a newline. */
  lemma {:induction false} ServerFraming(base: Dev, s: Server, evs: seq<Event>)
    requires Framed(base, s.sys.dev, s.log)
    ensures Framed(base, After(s, evs).sys.dev, After(s, evs).log)
  {
    if evs != [] {
      ServerFraming(base, s, evs[..|evs| - 1]);
      var m := After(s, evs[..|evs| - 1]);
      if Enabled(m, evs[|evs| - 1]) {
        NextFramed(base, m, evs[|evs| - 1]);
      }
    }
  }

  // ---- What each connection has tried to write -----------------------------------------------

  /** Its newline was handed to the device. */
  predicate Done(conn: Conn) {
    conn.kept <= |conn.chunks| && EndsInNewline(Sent(conn.chunks[..conn.kept]))
  }

  /** A connection has tried to write what is sent of the chunks before its first seek
      command, and goes on receiving only while it has seen no newline. */
  ghost predicate ConnOk(conn: Conn, offered: seq<byte>) {
    && conn.got <= |conn.chunks|
    && conn.kept == FirstToken(conn.chunks[..conn.got])
    && (conn.sought <==> conn.kept < conn.got)
    && offered == Sent(conn.chunks[..conn.kept])
    && (conn.open ==> NEWLINE !in Concat(conn.chunks[..conn.got]))
  }

  /** A connection is finished by the pass that hands over its newline. */
  ghost predicate FinishedBy(conn: Conn, conn': Conn, payload: seq<byte>) {
    !Done(conn) && (Done(conn') <==> !conn'.sought && EndsInNewline(payload))
  }

  /** One pass of the loop keeps what is known about its connection. */
  lemma ReceiveConnOk(conn: Conn, text: seq<byte>, t: Turn)
    requires ConnOk(conn, text) && conn.open && conn.got < |conn.chunks|
    ensures var conn' := ReceiveConn(conn, t);
            && ConnOk(conn', if conn'.sought then text else text + Payload(conn.chunks[conn.got]))
            && FinishedBy(conn, conn', Payload(conn.chunks[conn.got]))
  {
    PassOk(conn, text, t, HasToken(Payload(conn.chunks[conn.got])));
  }

  lemma PassOk(conn: Conn, text: seq<byte>, t: Turn, token: bool)
    requires ConnOk(conn, text) && conn.open && conn.got < |conn.chunks|
    requires token == HasToken(Payload(conn.chunks[conn.got]))
    ensures var conn' := Pass(conn, t, token);
            && ConnOk(conn', if conn'.sought then text else text + Payload(conn.chunks[conn.got]))
            && FinishedBy(conn, conn', Payload(conn.chunks[conn.got]))
  {
    QuietText(conn, text);
    NextChunk(conn.chunks, conn.got, token);
    if !conn.sought && !token {
      PassSends(conn, text, t);
    }
  }

  /** A pass that hands its chunk to the device. */
  lemma PassSends(conn: Conn, text: seq<byte>, t: Turn)
    requires ConnOk(conn, text) && conn.open && conn.got < |conn.chunks| && !conn.sought
    requires NEWLINE !in text && FirstToken(conn.chunks[..conn.got + 1]) == conn.got + 1
    requires Concat(conn.chunks[..conn.got + 1]) == Concat(conn.chunks[..conn.got]) + conn.chunks[conn.got]
    ensures var conn' := Pass(conn, t, false);
            && ConnOk(conn', text + Payload(conn.chunks[conn.got]))
            && (Done(conn') <==> EndsInNewline(Payload(conn.chunks[conn.got])))
  {
    assert conn.kept == conn.got;
    SentNext(conn.chunks, conn.got);
    EndsLater(text, Payload(conn.chunks[conn.got]));
  }

  lemma NextChunk(chunks: seq<seq<byte>>, n: nat, token: bool)
    requires n < |chunks| && token == HasToken(Payload(chunks[n]))
    ensures chunks[..n + 1] == chunks[..n] + [chunks[n]]
    ensures Concat(chunks[..n + 1]) == Concat(chunks[..n]) + chunks[n]
    ensures FirstToken(chunks[..n + 1])
         == if FirstToken(chunks[..n]) < n || token then FirstToken(chunks[..n]) else n + 1
  {
    var front := chunks[..n];
    assert chunks[..n + 1] == front + [chunks[n]];
    FirstTokenSnoc(front, chunks[n], token);
    ConcatSnoc(front, chunks[n]);
  }

  /** While a connection is open, what it has tried to write has no newline. */
  lemma QuietText(conn: Conn, text: seq<byte>)
    requires ConnOk(conn, text) && conn.open
    ensures NEWLINE !in text && !Done(conn)
  {
    var kept, more := conn.chunks[..conn.kept], conn.chunks[conn.kept..conn.got];
    assert conn.chunks[..conn.got] == kept + more;
    ConcatAppend(kept, more);
    SentQuiet(kept);
    NoNewlineEnds(text);
  }

  /** What one pass adds to the log of one connection. */
  lemma PassOffers(s: Sys, conn: Conn, t: Turn, c: nat)
    requires conn.got < |conn.chunks| && TurnFor(conn.chunks[conn.got], t)
    ensures OfferedBy(LinesOf(c, s, ReceiveCalls(conn, t)), c)
         == if ReceiveConn(conn, t).sought then [] else Payload(conn.chunks[conn.got])
  {
    if !ReceiveConn(conn, t).sought {
      TurnLines(c, s, t);
      TriesOffer(c, Step(s, Open(t.fd)).0, t.fd, t.frags, t.answers);
    }
  }

  /** One event keeps what is known about a connection. */
  lemma NextConnOk(s: Server, ev: Event, c: nat)
    requires Enabled(s, ev) && c < |s.conns| && ConnOk(s.conns[c], OfferedBy(s.log, c))
    ensures c < |Next(s, ev).conns| && Next(s, ev).conns[c].chunks == s.conns[c].chunks
    ensures ConnOk(Next(s, ev).conns[c], OfferedBy(Next(s, ev).log, c))
  {
    match ev
    case Accept(_) =>
    case Receive(d, t) => ReceiveKeeps(s, d, t, c);
    case HangUp(_) =>
    case Others(_) =>
  }

  lemma ReceiveKeeps(s: Server, d: nat, t: Turn, c: nat)
    requires Enabled(s, Receive(d, t)) && c < |s.conns| && ConnOk(s.conns[c], OfferedBy(s.log, c))
    ensures ConnOk(Next(s, Receive(d, t)).conns[c], OfferedBy(Next(s, Receive(d, t)).log, c))
  {
    var calls := ReceiveCalls(s.conns[d], t);
    LogAppend(s.log, LinesOf(d, s.sys, calls), c);
    LinesShape(d, s.sys, calls);
    OnlyLines(LinesOf(d, s.sys, calls), d, c);
    if c == d {
      PassOffers(s.sys, s.conns[c], t, c);
      ReceiveConnOk(s.conns[c], OfferedBy(s.log, c), t);
      NothingMore(OfferedBy(s.log, c));
    } else {
      NothingMore(OfferedBy(s.log, c));
    }
  }

  lemma NothingMore(x: seq<byte>)
    ensures x + [] == x
  {
  }

  /** Every connection is as its share of the log says, and the log is sensible. */
  ghost predicate LogOk(s: Server) {
    && Within(s.log, |s.conns|) && Sensible(s.log)
    && forall i :: 0 <= i < |s.conns| ==> ConnOk(s.conns[i], OfferedBy(s.log, i))
  }

  lemma LogOkAt(s: Server, c: nat)
    requires LogOk(s) && c < |s.conns|
    ensures ConnOk(s.conns[c], OfferedBy(s.log, c))
  {
  }

  lemma NextLogOk(s: Server, ev: Event)
    requires LogOk(s) && Enabled(s, ev)
    ensures LogOk(Next(s, ev))
  {
    NextShape(s, ev);
    forall i: nat | i < |Next(s, ev).conns|
      ensures ConnOk(Next(s, ev).conns[i], OfferedBy(Next(s, ev).log, i))
    {
      if i < |s.conns| {
        NextConnOk(s, ev, i);
      } else {
        NoLines(s.log, i);
        NewOk(ev.chunks);
      }
    }
  }

  lemma NewOk(chunks: seq<seq<byte>>)
    ensures ConnOk(NewConn(chunks), [])
  {
    assert Concat(chunks[..0]) == [];
  }

  lemma NextShape(s: Server, ev: Event)
    requires Within(s.log, |s.conns|) && Sensible(s.log) && Enabled(s, ev)
    ensures Within(Next(s, ev).log, |Next(s, ev).conns|) && Sensible(Next(s, ev).log)
    ensures |s.conns| <= |Next(s, ev).conns|
  {
    match ev
    case Accept(_) => WithinMore(s.log, |s.conns|, |s.conns| + 1);
    case Receive(c, t) =>
      var lines := LinesOf(c, s.sys, ReceiveCalls(s.conns[c], t));
      LinesShape(c, s.sys, ReceiveCalls(s.conns[c], t));
      OnlyLines(lines, c, |s.conns|);
      ShapeAppend(s.log, lines, |s.conns|);
    case HangUp(_) =>
    case Others(_) =>
  }

  /** So it is over every interleaving, whatever is refused. */
  lemma {:induction false} AfterLogOk(s: Server, evs: seq<Event>)
    requires LogOk(s)
    ensures LogOk(After(s, evs))
  {
    if evs != [] {
      AfterLogOk(s, evs[..|evs| - 1]);
      var m := After(s, evs[..|evs| - 1]);
      if Enabled(m, evs[|evs| - 1]) {
        NextLogOk(m, evs[|evs| - 1]);
      }
    }
  }

  // ---- One connection among others -----------------------------------------------------------

  /** Nobody but c receives. */
  ghost predicate Alone(evs: seq<Event>, c: nat) {
    forall i :: 0 <= i < |evs| && evs[i].Receive? ==> evs[i].conn == c
  }

  /** When c alone receives, all lines are c's. */
  lemma {:induction false} AloneLines(s: Server, evs: seq<Event>, c: nat)
    requires Alone(evs, c) && OnlyOf(s.log, c)
    ensures OnlyOf(After(s, evs).log, c)
  {
    if evs != [] {
      var front, ev := evs[..|evs| - 1], evs[|evs| - 1];
      AloneLines(s, front, c);
      var m := After(s, front);
      if Enabled(m, ev) && ev.Receive? {
        var calls := ReceiveCalls(m.conns[c], ev.turn);
        LinesShape(c, m.sys, calls);
        ShapeAppend(m.log, LinesOf(c, m.sys, calls), c);
      }
    }
  }

  lemma {:induction false} ConnAfter(s: Server, evs: seq<Event>, c: nat)
    requires c < |s.conns| && ConnOk(s.conns[c], OfferedBy(s.log, c))
    ensures c < |After(s, evs).conns| && After(s, evs).conns[c].chunks == s.conns[c].chunks
    ensures ConnOk(After(s, evs).conns[c], OfferedBy(After(s, evs).log, c))
  {
    if evs != [] {
      ConnAfter(s, evs[..|evs| - 1], c);
      var m := After(s, evs[..|evs| - 1]);
      if Enabled(m, evs[|evs| - 1]) {
        NextConnOk(m, evs[|evs| - 1], c);
      }
    }
  }

  lemma {:induction false} SensibleAfter(s: Server, evs: seq<Event>)
    requires Sensible(s.log)
    ensures Sensible(After(s, evs).log)
  {
    if evs != [] {
      var front, ev := evs[..|evs| - 1], evs[|evs| - 1];
      SensibleAfter(s, front);
      var m := After(s, front);
      if Enabled(m, ev) && ev.Receive? {
        var calls := ReceiveCalls(m.conns[ev.conn], ev.turn);
        LinesShape(ev.conn, m.sys, calls);
        ShapeAppend(m.log, LinesOf(ev.conn, m.sys, calls), 0);
      }
    }
  }
}
