/** When everything the connections send is stored: exactly when every chunk meets a
    device that takes it. */
module Delivery {
  import opened Bytes
  import opened DeviceSpec
  import opened DeviceRuns
  import opened Extraction
  import opened Framing

  // ---- A text appended --------------------------------------------------------------------

  /** The device after one complete and successful write of a text, if there is any. */
  function Appended(d: Dev, text: seq<byte>): Dev {
    if text == [] then d else WriteDev(d, text, |text|, true, true).0
  }

  function TextPiece(text: seq<byte>): Piece {
    Piece(text, EndsInNewline(text))
  }

  /** The text goes to the pending bytes, and its newline commits them. */
  ghost predicate AppendsText(d: Dev, e: Dev, text: seq<byte>) {
    && e.limit == d.limit && e.locked == d.locked
    && e.committed == d.committed + Closed(d.pending, TextPiece(text))
    && e.pending == Left(d.pending, TextPiece(text))
    && (e.stale ==> e.pending == [])
  }

  /** Not locked, and n more bytes are within the allocation limit. */
  predicate Room(d: Dev, n: nat) {
    !d.locked && |d.pending| + n <= d.limit && (d.stale ==> d.pending == [])
  }

  lemma AppendedText(d: Dev, text: seq<byte>)
    requires Room(d, |text|)
    ensures AppendsText(d, Appended(d, text), text)
  {
    assert text[..|text|] == text;
  }

  /** A text without newline at its end stays pending. */
  lemma AppendedPending(d: Dev, text: seq<byte>)
    requires Room(d, |text|) && !EndsInNewline(text)
    ensures Appended(d, text).committed == d.committed && Appended(d, text).pending == d.pending + text
    ensures Appended(d, text).limit == d.limit && Appended(d, text).locked == d.locked
    ensures Appended(d, text).stale ==> Appended(d, text).pending == []
  {
    AppendedText(d, text);
  }

  /** The stored bytes grow by the text. */
  lemma AppendedBytes(d: Dev, text: seq<byte>)
    requires Room(d, |text|)
    ensures var e := Appended(d, text);
            Concat(e.committed) + e.pending == Concat(d.committed) + d.pending + text
  {
    AppendedText(d, text);
    var e := Appended(d, text);
    Associates(Concat(d.committed), d.pending, text);
    if EndsInNewline(text) {
      ConcatSnoc(d.committed, d.pending + text);
      assert Concat(e.committed) + [] == Concat(e.committed);
    } else {
      assert e.committed == d.committed;
    }
  }

  /** Texts appended one after the other, the first without newline. */
  lemma AppendedTwice(d: Dev, x: seq<byte>, y: seq<byte>)
    requires Room(d, |x + y|) && NEWLINE !in x
    ensures Appended(Appended(d, x), y) == Appended(d, x + y)
  {
    if x == [] {
      assert x + y == y;
    } else if y == [] {
      assert x + y == x;
    } else {
      var xy := x + y;
      assert x[..|x|] == x && y[..|y|] == y && xy[..|xy|] == xy;
      assert d.pending + x + y == d.pending + xy;
      assert xy[|xy| - 1] == y[|y| - 1];
      assert x[|x| - 1] in x;
    }
  }

  // ---- When one turn is stored whole ----------------------------------------------------------

  /** No fragment is refused an allocation it needs, cut short or interrupted. The second
      block is needed unless the fragment starts a new entry. */
  predicate AllGranted(frags: seq<seq<byte>>, answers: seq<Answer>, merging: bool)
    requires |answers| == |frags|
  {
    frags == [] ||
    (var n := |frags| - 1;
     AllGranted(frags[..n], answers[..n], merging) && Granted(frags[n], answers[n], merging || 0 < n))
  }

  /** The device takes these fragments: there are none, or it is not locked, they and what
      is pending are within the allocation limit, and each is granted. */
  predicate Takes(d: Dev, frags: seq<seq<byte>>, answers: seq<Answer>)
    requires |answers| == |frags|
  {
    frags == [] ||
    (!d.locked && |d.pending| + |Concat(frags)| <= d.limit && AllGranted(frags, answers, d.pending != []))
  }

  /** Every line was stored whole. */
  ghost predicate Whole(log: seq<Line>) {
    log == [] || (log[|log| - 1].stored == log[|log| - 1].data && Whole(log[..|log| - 1]))
  }

  lemma {:induction false} WholeAppend(log: seq<Line>, more: seq<Line>)
    ensures Whole(log + more) <==> Whole(log) && Whole(more)
  {
    if more == [] {
      assert log + more == log;
    } else {
      assert (log + more)[..|log + more| - 1] == log + more[..|more| - 1];
      WholeAppend(log, more[..|more| - 1]);
    }
  }

  /** One fragment is stored whole exactly when it is granted and there is room. */
  lemma WriteWholeIff(s: Sys, fd: Fd, w: seq<byte>, a: Answer)
    requires fd in s.fpos && w != [] && a.copied <= |w| && s.dev.Inv()
    ensures StoredBy(s, Try(fd, w, a)) == w
       <==> !s.dev.locked && |s.dev.pending| + |w| <= s.dev.limit && Granted(w, a, s.dev.pending != [])
    ensures StoredBy(s, Try(fd, w, a)) == w ==>
              Step(s, Try(fd, w, a)).0.dev == Appended(s.dev, w) && fd in Step(s, Try(fd, w, a)).0.fpos
  {
    assert w[..|w|] == w;
    assert StoredBy(s, Try(fd, w, a)) == w <==> |StoredBy(s, Try(fd, w, a))| == |w|;
  }

  /** The fragments of a text whose only newline is its last byte are all stored whole
      exactly when the device takes them; then they act as one write of the text. */
  lemma {:induction false} TriesWholeIff(conn: nat, s: Sys, fd: Fd, frags: seq<seq<byte>>, answers: seq<Answer>)
    requires Tryable(frags, answers) && fd in s.fpos && s.dev.Inv() && NewlineLast(Concat(frags))
    ensures Whole(LinesOf(conn, s, Tries(fd, frags, answers))) <==> Takes(s.dev, frags, answers)
    ensures Takes(s.dev, frags, answers) ==>
              var e := Run(s, Tries(fd, frags, answers)); e.dev == Appended(s.dev, Concat(frags)) && fd in e.fpos
  {
    if frags != [] {
      var n := |frags| - 1;
      var front, last, answer := frags[..n], frags[n], answers[n];
      ConcatLast(frags);
      QuietFront(Concat(front), last);
      TriesWholeIff(conn, s, fd, front, answers[..n]);
      LastWhole(conn, s, fd, frags, answers);
    }
  }

  lemma QuietFront(x: seq<byte>, y: seq<byte>)
    requires y != [] && NewlineLast(x + y)
    ensures NEWLINE !in x && NewlineLast(x)
  {
    forall i | 0 <= i < |x|
      ensures x[i] != NEWLINE
    {
      assert x[i] == (x + y)[i];
    }
  }

  /** The last fragment of a turn. */
  lemma LastWhole(conn: nat, s: Sys, fd: Fd, frags: seq<seq<byte>>, answers: seq<Answer>)
    requires Tryable(frags, answers) && fd in s.fpos && s.dev.Inv() && frags != []
    requires var n := |frags| - 1;
             && Concat(frags) == Concat(frags[..n]) + frags[n] && NEWLINE !in Concat(frags[..n])
             && (Whole(LinesOf(conn, s, Tries(fd, frags[..n], answers[..n])))
                 <==> Takes(s.dev, frags[..n], answers[..n]))
             && (Takes(s.dev, frags[..n], answers[..n]) ==>
                   var m := Run(s, Tries(fd, frags[..n], answers[..n]));
                   m.dev == Appended(s.dev, Concat(frags[..n])) && fd in m.fpos)
    ensures Whole(LinesOf(conn, s, Tries(fd, frags, answers))) <==> Takes(s.dev, frags, answers)
    ensures Takes(s.dev, frags, answers) ==>
              var e := Run(s, Tries(fd, frags, answers)); e.dev == Appended(s.dev, Concat(frags)) && fd in e.fpos
  {
    var n := |frags| - 1;
    var x, w, a := Concat(frags[..n]), frags[n], answers[n];
    var calls := Tries(fd, frags[..n], answers[..n]);
    TriesSnoc(fd, frags, answers);
    LinesSnoc(conn, s, calls, Try(fd, w, a));
    WholeAppend(LinesOf(conn, s, calls), LineOf(conn, Run(s, calls), Try(fd, w, a)));
    LineWhole(conn, Run(s, calls), Try(fd, w, a));
    RunInv(s, calls);
    TakesSnoc(s.dev, frags, answers);
    if Takes(s.dev, frags[..n], answers[..n]) {
      WriteWholeIff(Run(s, calls), fd, w, a);
      FrontAppended(s.dev, x, frags[..n]);
      if Room(s.dev, |x + w|) { AppendedTwice(s.dev, x, w); }
    }
  }

  /** Taking one fragment more. */
  lemma TakesSnoc(d: Dev, frags: seq<seq<byte>>, answers: seq<Answer>)
    requires |answers| == |frags| && frags != []
    requires |Concat(frags[..|frags| - 1])| <= |Concat(frags)|
    ensures var n := |frags| - 1;
            Takes(d, frags, answers)
            <==> && Takes(d, frags[..n], answers[..n])
                 && !d.locked && |d.pending| + |Concat(frags)| <= d.limit
                 && Granted(frags[n], answers[n], d.pending != [] || 0 < n)
  {
    var n, merging := |frags| - 1, d.pending != [];
    if n == 0 {
      assert frags[..n] == [];
    }
    assert AllGranted(frags, answers, merging)
      <==> AllGranted(frags[..n], answers[..n], merging) && Granted(frags[n], answers[n], merging || 0 < n);
  }

  lemma LineWhole(conn: nat, s: Sys, c: Call)
    requires c.Write?
    ensures Whole(LineOf(conn, s, c)) <==> StoredBy(s, c) == c.data
  {
    assert [Line(conn, c.data, StoredBy(s, c))][..0] == [];
  }

  /** The device after the fragments before the last. */
  lemma FrontAppended(d: Dev, x: seq<byte>, front: seq<seq<byte>>)
    requires d.Inv() && NEWLINE !in x && x == Concat(front)
    requires forall i :: 0 <= i < |front| ==> front[i] != []
    requires front == [] || (!d.locked && |d.pending| + |x| <= d.limit)
    ensures var m := Appended(d, x);
            && m.pending == d.pending + x && m.locked == d.locked && m.limit == d.limit
            && (m.pending != [] <==> d.pending != [] || front != [])
  {
    NoNewlineEnds(x);
    if front == [] {
      assert x == [] && d.pending + x == d.pending;
    } else {
      AppendedPending(d, x);
      assert x == front[0] + Concat(front[1..]);
    }
  }

  /** The kernel grants every write of a turn what it asks for within the limit: no
      allocation is refused, no copy is cut short, no wait is interrupted. */
  ghost predicate Willing(t: Turn) {
    |t.answers| == |t.frags| && forall i :: 0 <= i < |t.frags| ==> Granted(t.frags[i], t.answers[i], true)
  }

  lemma {:induction false} WillingGrants(frags: seq<seq<byte>>, answers: seq<Answer>, merging: bool)
    requires |answers| == |frags| && forall i :: 0 <= i < |frags| ==> Granted(frags[i], answers[i], true)
    ensures AllGranted(frags, answers, merging)
  {
    if frags != [] {
      WillingGrants(frags[..|frags| - 1], answers[..|frags| - 1], merging);
    }
  }

  /** A willing kernel takes whatever there is room for. */
  lemma WillingTakes(d: Dev, t: Turn)
    requires Willing(t) && Room(d, |Concat(t.frags)|)
    ensures Takes(d, t.frags, t.answers)
  {
    WillingGrants(t.frags, t.answers, d.pending != []);
  }

  lemma EmptyAppends(d: Dev)
    requires d.Inv()
    ensures AppendsText(d, Appended(d, []), [])
  {
    assert d.committed + [] == d.committed && d.pending + [] == d.pending;
  }

  // ---- When a run stores everything ------------------------------------------------------------

  /** If this event hands text to the device, the device takes it. */
  predicate Fits(s: Server, ev: Event) {
    ev.Receive? && Enabled(s, ev) && !ReceiveConn(s.conns[ev.conn], ev.turn).sought ==>
      Takes(s.sys.dev, ev.turn.frags, ev.turn.answers)
  }

  /** A run whose every event is enabled and whose every write is stored whole. */
  ghost predicate Runs(s: Server, evs: seq<Event>) {
    evs == [] ||
    (var front := evs[..|evs| - 1];
     && Runs(s, front)
     && Enabled(After(s, front), evs[|evs| - 1])
     && Fits(After(s, front), evs[|evs| - 1]))
  }

  /** The same for the text of one connection. */
  ghost predicate Kept(s: Server, evs: seq<Event>, c: nat) {
    evs == [] ||
    (var front, ev := evs[..|evs| - 1], evs[|evs| - 1];
     Kept(s, front, c) && (ev.Receive? && ev.conn == c ==> Fits(After(s, front), ev)))
  }

  /** Every line of connection c was stored whole. */
  ghost predicate WholeOf(log: seq<Line>, c: nat) {
    log == [] ||
    (var line := log[|log| - 1];
     (line.conn == c ==> line.stored == line.data) && WholeOf(log[..|log| - 1], c))
  }

  lemma {:induction false} WholeOfAppend(log: seq<Line>, more: seq<Line>, c: nat)
    ensures WholeOf(log + more, c) <==> WholeOf(log, c) && WholeOf(more, c)
  {
    if more == [] {
      assert log + more == log;
    } else {
      assert (log + more)[..|log + more| - 1] == log + more[..|more| - 1];
      WholeOfAppend(log, more[..|more| - 1], c);
    }
  }

  lemma {:induction false} WholeOnly(log: seq<Line>, d: nat, c: nat)
    requires OnlyOf(log, d)
    ensures WholeOf(log, c) <==> (c == d ==> Whole(log))
  {
    if log != [] {
      WholeOnly(log[..|log| - 1], d, c);
    }
  }

  /** A connection's share of the log is what it tried exactly when every line is whole;
      otherwise it is shorter. */
  lemma {:induction false} ShareWholeIff(log: seq<Line>, c: nat)
    requires Sensible(log)
    ensures |TextOf(log, c)| <= |OfferedBy(log, c)|
    ensures |TextOf(log, c)| == |OfferedBy(log, c)| <==> WholeOf(log, c)
    ensures WholeOf(log, c) ==> TextOf(log, c) == OfferedBy(log, c)
  {
    if log != [] {
      ShareWholeIff(log[..|log| - 1], c);
    }
  }

  /** The lines of one turn are whole exactly when the device takes it. */
  lemma TurnWholeIff(conn: nat, s: Sys, t: Turn, chunk: seq<byte>)
    requires TurnFor(chunk, t) && s.dev.Inv()
    ensures Whole(LinesOf(conn, s, TurnCalls(t))) <==> Takes(s.dev, t.frags, t.answers)
    ensures Takes(s.dev, t.frags, t.answers) ==> Run(s, TurnCalls(t)).dev == Appended(s.dev, Payload(chunk))
  {
    PayloadShape(chunk);
    TurnLines(conn, s, t);
    TriesWholeIff(conn, Step(s, Open(t.fd)).0, t.fd, t.frags, t.answers);
  }

  lemma ReceiveWholeIff(s: Server, c: nat, t: Turn)
    requires Enabled(s, Receive(c, t)) && s.sys.dev.Inv()
    ensures Whole(LinesOf(c, s.sys, ReceiveCalls(s.conns[c], t))) <==> Fits(s, Receive(c, t))
  {
    if !ReceiveConn(s.conns[c], t).sought {
      TurnWholeIff(c, s.sys, t, s.conns[c].chunks[s.conns[c].got]);
    }
  }

  /** One event and the share of one connection. */
  lemma NextKept(s: Server, ev: Event, c: nat)
    requires Enabled(s, ev) && s.sys.dev.Inv()
    ensures WholeOf(Next(s, ev).log, c) <==> WholeOf(s.log, c) && (ev.Receive? && ev.conn == c ==> Fits(s, ev))
  {
    match ev
    case Accept(_) =>
    case Receive(d, t) =>
      var lines := LinesOf(d, s.sys, ReceiveCalls(s.conns[d], t));
      LinesShape(d, s.sys, ReceiveCalls(s.conns[d], t));
      WholeOfAppend(s.log, lines, c);
      WholeOnly(lines, d, c);
      ReceiveWholeIff(s, d, t);
    case HangUp(_) =>
    case Others(_) =>
  }

  lemma {:induction false} KeptIff(s: Server, evs: seq<Event>, c: nat)
    requires s.sys.dev.Inv() && Happens(s, evs)
    ensures WholeOf(After(s, evs).log, c) <==> WholeOf(s.log, c) && Kept(s, evs, c)
  {
    if evs != [] {
      var front := evs[..|evs| - 1];
      KeptIff(s, front, c);
      AfterDevice(s, front);
      NextKept(After(s, front), evs[|evs| - 1], c);
    }
  }

  /** All that was tried. */
  function Offered(log: seq<Line>): seq<byte> {
    if log == [] then [] else Offered(log[..|log| - 1]) + log[|log| - 1].data
  }

  lemma {:induction false} WholeIff(log: seq<Line>)
    requires Sensible(log)
    ensures |LogBytes(log)| <= |Offered(log)|
    ensures |LogBytes(log)| == |Offered(log)| <==> Whole(log)
    ensures Whole(log) ==> LogBytes(log) == Offered(log)
  {
    if log != [] {
      WholeIff(log[..|log| - 1]);
    }
  }

  lemma {:induction false} RunsIff(s: Server, evs: seq<Event>)
    requires s.sys.dev.Inv() && Happens(s, evs)
    ensures Whole(After(s, evs).log) <==> Whole(s.log) && Runs(s, evs)
  {
    if evs != [] {
      var front := evs[..|evs| - 1];
      RunsIff(s, front);
      AfterDevice(s, front);
      NextWhole(After(s, front), evs[|evs| - 1]);
    }
  }

  lemma NextWhole(s: Server, ev: Event)
    requires Enabled(s, ev) && s.sys.dev.Inv()
    ensures Whole(Next(s, ev).log) <==> Whole(s.log) && Fits(s, ev)
  {
    match ev
    case Accept(_) =>
    case Receive(c, t) =>
      WholeAppend(s.log, LinesOf(c, s.sys, ReceiveCalls(s.conns[c], t)));
      ReceiveWholeIff(s, c, t);
    case HangUp(_) =>
    case Others(_) =>
  }

  lemma {:induction false} RunsHappens(s: Server, evs: seq<Event>)
    requires Runs(s, evs)
    ensures Happens(s, evs)
  {
    if evs != [] {
      RunsHappens(s, evs[..|evs| - 1]);
    }
  }

  // ---- How many entries ---------------------------------------------------------------------

  /** The number of connections below n whose newline was stored. */
  function Ended(log: seq<Line>, n: nat): nat {
    if n == 0 then 0 else Ended(log, n - 1) + if EndsInNewline(TextOf(log, n - 1)) then 1 else 0
  }

  /** The number of connection c's lines that ended an entry. */
  function EndedBy(log: seq<Line>, c: nat): nat {
    if log == [] then 0
    else EndedBy(log[..|log| - 1], c)
         + if log[|log| - 1].conn == c && PieceOf(log[|log| - 1]).terminated then 1 else 0
  }

  /** Lines that try no newline store none and end nothing. */
  lemma {:induction false} QuietLog(log: seq<Line>, c: nat)
    requires Sensible(log) && NEWLINE !in OfferedBy(log, c)
    ensures NEWLINE !in TextOf(log, c) && EndedBy(log, c) == 0
  {
    if log != [] {
      var front, line := log[..|log| - 1], log[|log| - 1];
      if line.conn == c {
        assert NEWLINE !in line.data && NEWLINE !in OfferedBy(front, c);
        NoNewlineEnds(line.data);
        assert line.stored == line.data[..|line.stored|];
      } else {
        assert OfferedBy(front, c) + [] == OfferedBy(front, c);
      }
      QuietLog(front, c);
    }
  }

  /** A connection that tries at most one newline, at the end, ends one entry if that
      newline was stored, and none otherwise. */
  lemma {:induction false} EndsOnce(log: seq<Line>, c: nat)
    requires Sensible(log) && NewlineLast(OfferedBy(log, c))
    ensures EndedBy(log, c) == if EndsInNewline(TextOf(log, c)) then 1 else 0
  {
    if log != [] {
      var front, line := log[..|log| - 1], log[|log| - 1];
      if line.conn == c {
        QuietFront(OfferedBy(front, c), line.data);
        QuietLog(front, c);
        LastLine(TextOf(front, c), OfferedBy(front, c), line);
      } else {
        NothingMore(OfferedBy(front, c));
        NothingMore(TextOf(front, c));
        EndsOnce(front, c);
      }
    }
  }

  lemma LastLine(text: seq<byte>, offered: seq<byte>, line: Line)
    requires NEWLINE !in text && line.data != [] && line.stored <= line.data && NewlineLast(offered + line.data)
    ensures EndsInNewline(text + line.stored) <==> PieceOf(line).terminated
  {
    EndsLater(text, line.stored);
    if line.stored != line.data && line.stored != [] {
      var i := |line.stored| - 1;
      assert line.data[i] == (offered + line.data)[|offered| + i];
    }
  }

  /** Every line that ends an entry belongs to some connection. */
  lemma {:induction false} EndedTotal(log: seq<Line>, n: nat)
    requires Within(log, n)
    ensures Terminated(Pieces(log)) == SumEnded(log, n)
  {
    if log == [] {
      NoneEnded(n);
    } else {
      var front, line := log[..|log| - 1], log[|log| - 1];
      EndedTotal(front, n);
      TerminatedAppend(Pieces(front), [PieceOf(line)]);
      OnePiece(PieceOf(line));
      OneMore(front, line, n);
      assert log == front + [line];
    }
  }

  lemma OnePiece(p: Piece)
    ensures Terminated([p]) == if p.terminated then 1 else 0
  {
  }

  function SumEnded(log: seq<Line>, n: nat): nat {
    if n == 0 then 0 else SumEnded(log, n - 1) + EndedBy(log, n - 1)
  }

  lemma {:induction false} NoneEnded(n: nat)
    ensures SumEnded([], n) == 0
  {
    if n != 0 {
      NoneEnded(n - 1);
    }
  }

  lemma {:induction false} OneMore(log: seq<Line>, line: Line, n: nat)
    ensures SumEnded(log + [line], n)
         == SumEnded(log, n) + if line.conn < n && PieceOf(line).terminated then 1 else 0
  {
    if n != 0 {
      OneMore(log, line, n - 1);
      assert (log + [line])[..|log|] == log;
    }
  }

  lemma {:induction false} EndedSum(log: seq<Line>, n: nat)
    requires forall c :: 0 <= c < n ==> EndedBy(log, c) == if EndsInNewline(TextOf(log, c)) then 1 else 0
    ensures SumEnded(log, n) == Ended(log, n)
  {
    if n != 0 {
      EndedSum(log, n - 1);
    }
  }

  /** One entry per connection whose newline was stored. */
  lemma CountEntries(s: Server, base: Dev)
    requires LogOk(s) && Framed(base, s.sys.dev, s.log)
    ensures |s.sys.dev.committed| == |base.committed| + Ended(s.log, |s.conns|)
  {
    FramingCounts(base.pending, Pieces(s.log));
    EndedTotal(s.log, |s.conns|);
    forall c: nat | c < |s.conns|
      ensures EndedBy(s.log, c) == if EndsInNewline(TextOf(s.log, c)) then 1 else 0
    {
      LogOkAt(s, c);
      SentShape(s.conns[c].chunks[..s.conns[c].kept]);
      EndsOnce(s.log, c);
    }
    EndedSum(s.log, |s.conns|);
  }

  // ---- Main results -----------------------------------------------------------------------

  lemma {:induction false} JoinedLog(log: seq<Line>)
    ensures Joined(Pieces(log)) == LogBytes(log)
  {
    if log != [] {
      var front, line := log[..|log| - 1], log[|log| - 1];
      JoinedLog(front);
      JoinedAppend(Pieces(front), [PieceOf(line)]);
      assert Joined([PieceOf(line)]) == line.stored + Joined([]);
    }
  }

  /** The stored bytes are the log's. */
  lemma FramedBytes(base: Dev, d: Dev, log: seq<Line>)
    requires Framed(base, d, log)
    ensures Concat(d.committed) + d.pending == Concat(base.committed) + base.pending + LogBytes(log)
  {
    var ps := Pieces(log);
    FramingConserves(base.pending, ps);
    JoinedLog(log);
    ConcatAppend(base.committed, Entries(base.pending, ps));
    Associates(Concat(base.committed), Concat(Entries(base.pending, ps)), d.pending);
    Associates(Concat(base.committed), base.pending, LogBytes(log));
  }

  /** Concurrent framing: from any device, for any number of connections, whatever bytes
      they send, any interleaving of their chunks, hang-ups and other calls, and whichever
      writes are refused, cut short or interrupted,
      (1) the committed and pending bytes grow by what the log says was stored; (2) the
      new entries are the log, cut after each whole line that ends in a newline; (3) each
      connection has tried to write what is sent of its own chunks before its first seek
      command; its share of the log is each of these writes as far as it was stored, and
      is all of it if and only if the device took every one of its turns; (4) there is one
      new entry per connection whose newline was stored. */
  lemma ConcurrentFraming(sys: Sys, evs: seq<Event>, c: nat)
    requires sys.dev.Inv()
    requires var s := Server(sys, [], []); Happens(s, evs) && c < |After(s, evs).conns|
    ensures var e := After(Server(sys, [], []), evs);
            var conn := e.conns[c];
            && Concat(e.sys.dev.committed) + e.sys.dev.pending
               == Concat(sys.dev.committed) + sys.dev.pending + LogBytes(e.log)
            && Framed(sys.dev, e.sys.dev, e.log) && Sensible(e.log)
            && conn.got <= |conn.chunks| && conn.kept == FirstToken(conn.chunks[..conn.got])
            && OfferedBy(e.log, c) == Sent(conn.chunks[..conn.kept]) <= Sent(conn.chunks)
            && |TextOf(e.log, c)| <= |OfferedBy(e.log, c)|
            && (TextOf(e.log, c) == OfferedBy(e.log, c) <==> Kept(Server(sys, [], []), evs, c))
            && ShareIsPacket(conn, OfferedBy(e.log, c))
            && |e.sys.dev.committed| == |sys.dev.committed| + Ended(e.log, |e.conns|)
  {
    var s := Server(sys, [], []);
    var e := After(s, evs);
    AfterFromEmpty(sys, evs);
    FramedBytes(sys.dev, e.sys.dev, e.log);
    LogOkAt(e, c);
    ShareIsPrefix(e.conns[c], OfferedBy(e.log, c));
    ShareWholeIff(e.log, c);
    KeptIff(s, evs, c);
    CountEntries(e, sys.dev);
  }

  lemma AfterFromEmpty(sys: Sys, evs: seq<Event>)
    requires sys.dev.Inv()
    ensures var e := After(Server(sys, [], []), evs); LogOk(e) && Framed(sys.dev, e.sys.dev, e.log)
  {
    FramedEmpty(sys.dev);
    ServerFraming(sys.dev, Server(sys, [], []), evs);
    AfterLogOk(Server(sys, [], []), evs);
  }

  /** The stored bytes grow by at most what was tried, and by all of it if and only if the
      device took every turn: it was unlocked, the text and the pending bytes were within
      the allocation limit, and no write of the turn was refused a block it needed, cut
      short or interrupted. */
  lemma StoredIff(sys: Sys, evs: seq<Event>)
    requires sys.dev.Inv() && Happens(Server(sys, [], []), evs)
    ensures var e := After(Server(sys, [], []), evs);
            var was := Concat(sys.dev.committed) + sys.dev.pending;
            var now := Concat(e.sys.dev.committed) + e.sys.dev.pending;
            && |was| <= |now| <= |was| + |Offered(e.log)|
            && (now == was + Offered(e.log) <==> Runs(Server(sys, [], []), evs))
  {
    var e := After(Server(sys, [], []), evs);
    AfterFromEmpty(sys, evs);
    FramedBytes(sys.dev, e.sys.dev, e.log);
    WholeIff(e.log);
    RunsIff(Server(sys, [], []), evs);
  }

  /** Without NUL bytes what is sent is the stream through its first newline. */
  ghost predicate ShareIsPacket(conn: Conn, offered: seq<byte>)
    requires conn.kept <= |conn.chunks|
  {
    var packet := UpToNewline(Concat(conn.chunks[..conn.kept]));
    && packet <= UpToNewline(Concat(conn.chunks))
    && (offered == packet <==> NUL !in packet)
  }

  lemma ShareIsPrefix(conn: Conn, offered: seq<byte>)
    requires ConnOk(conn, offered)
    ensures offered <= Sent(conn.chunks) && ShareIsPacket(conn, offered)
  {
    SentPrefix(conn.chunks, conn.kept);
    ChunkingIndependentIff(conn.chunks[..conn.kept]);
    PacketPrefix(conn.chunks, conn.kept);
  }

  lemma PacketPrefix(chunks: seq<seq<byte>>, k: nat)
    requires k <= |chunks|
    ensures UpToNewline(Concat(chunks[..k])) <= UpToNewline(Concat(chunks))
  {
    assert chunks == chunks[..k] + chunks[k..];
    ConcatAppend(chunks[..k], chunks[k..]);
    UpToNewlineAppend(Concat(chunks[..k]), Concat(chunks[k..]));
    UpToNewlineShape(Concat(chunks[..k]));
  }

  // ---- A packet lost ---------------------------------------------------------------------------

  /** A packet of two bytes, cut in two, of which the newline is refused its block. */
  function HalfTurn(): Turn {
    Turn(0, [[65], [NEWLINE]], [Answer(1, true, true, false), Answer(1, false, true, false)], 0, 0)
  }

  /** From the loaded module: the connection is over and its newline was handed over, but
      its first byte stays pending and no entry is committed. */
  lemma LosingRun(limit: nat)
    requires 2 <= limit
    ensures var s := Server(Init(limit), [NewConn([[65, NEWLINE]])], []);
            var ev := Receive(0, HalfTurn());
            && Enabled(s, ev) && !Fits(s, ev)
            && var e := Next(s, ev);
               && e.sys.dev.committed == [] && e.sys.dev.pending == [65]
               && !e.conns[0].open && Done(e.conns[0])
  {
    var s := Server(Init(limit), [NewConn([[65, NEWLINE]])], []);
    TwoBytes(65);
    HalfFrags();
    HalfStored(Init(limit));
    ShortNoToken([65, NEWLINE]);
    HalfRefused(s.sys.dev);
    assert s.conns[0].chunks[..1] == [[65, NEWLINE]];
    assert [[65, NEWLINE]][1..] == [];
    assert Sent([[65, NEWLINE]]) == [65, NEWLINE];
  }

  lemma HalfRefused(d: Dev)
    ensures !Takes(d, HalfTurn().frags, HalfTurn().answers)
  {
    assert !Granted([NEWLINE], Answer(1, false, true, false), true);
    assert HalfTurn().frags[1] == [NEWLINE];
  }

  lemma HalfFrags()
    ensures Concat(HalfTurn().frags) == [65, NEWLINE]
  {
    ConcatLast([[65], [NEWLINE]]);
    assert [[65], [NEWLINE]][..1] == [[65]];
    ConcatLast([[65]]);
    assert [[65]][..0] == [];
    assert [65] + [NEWLINE] == [65, NEWLINE];
  }

  lemma HalfStored(s: Sys)
    requires s.dev.committed == [] && s.dev.pending == [] && !s.dev.locked && 2 <= s.dev.limit
    ensures Run(s, TurnCalls(HalfTurn())).dev.committed == [] && Run(s, TurnCalls(HalfTurn())).dev.pending == [65]
  {
    var a, b := Try(0, [65], Answer(1, true, true, false)), Try(0, [NEWLINE], Answer(1, false, true, false));
    var t := HalfTurn();
    TurnLines(0, s, t);
    assert Tries(t.fd, t.frags, t.answers) == [a, b];
    RunTwo(Step(s, Open(0)).0, a, b);
    assert [65][..1] == [65] && [] + [65] == [65];
  }
}
