/** What readers of the device get: positions, interleaved commits, evictions,
    reading to the end, and seeking. */
module Readers {
  import opened Bytes
  import opened Positions
  import opened CircularBuffer
  import opened DeviceSpec
  import opened DeviceRuns

  // ---- One read ---------------------------------------------------------------

  /** A read returns the content at its position; it returns nothing, given room
      for at least one byte, exactly at or past the end. */
  lemma ReadIsSlice(d: Dev, pos: nat, count: nat, fault: bool)
    ensures var r := ReadDev(d, pos, count, fault);
            && (r.Data? ==> SliceAt(d.Content(), pos, r.bytes))
            && (0 < count ==> (r == Data([]) <==> |d.Content()| <= pos))
            && (r.Data? ==> |r.bytes| <= count)
            && (!fault ==> r.Data?)
  {
    var live := Last(d.committed);
    ConcatSize(live);
    LocateMissIff(Sizes(live), pos);
    if pos < |d.Content()| {
      ReadHits(d, pos, count, fault);
    }
  }

  /** A read inside the content. */
  lemma ReadHits(d: Dev, pos: nat, count: nat, fault: bool)
    requires pos < |d.Content()|
    ensures var r := ReadDev(d, pos, count, fault);
            && (r.Data? ==> |r.bytes| <= count && SliceAt(d.Content(), pos, r.bytes))
            && (0 < count ==> r != Data([]))
            && (!fault ==> r.Data?)
  {
    var live := Last(d.committed);
    LocateBlock(live, pos);
    var At(k, i) := Locate(Sizes(live), pos);
    LocateSlice(live, pos, Min(|live[k]| - i, count));
  }

  // ---- Growth of the history ------------------------------------------------

  lemma StepGrows(s: Sys, c: Call)
    ensures s.dev.committed <= Step(s, c).0.dev.committed
  {
  }

  lemma RunGrows(s: Sys, calls: seq<Call>)
    ensures s.dev.committed <= Run(s, calls).dev.committed
  {
    RunIsFraming(s, calls);
  }

  /** As long as nothing is evicted the content only grows at its end. */
  lemma ContentGrows(d: Dev, e: Dev)
    requires d.committed <= e.committed
    requires |e.committed| <= CAPACITY || |e.committed| == |d.committed|
    ensures d.Content() <= e.Content()
  {
    if |e.committed| == |d.committed| {
      assert d.committed == e.committed;
    } else {
      assert e.committed == d.committed + e.committed[|d.committed|..];
      ConcatAppend(d.committed, e.committed[|d.committed|..]);
    }
  }

  /** A commit into a full ring drops the oldest entry from the front of the
      content, so every byte that stays moves down by the size of that entry. */
  lemma CommitShifts(d: Dev, x: seq<byte>)
    ensures var e := d.(committed := d.committed + [x]);
            if |d.committed| < CAPACITY then e.Content() == d.Content() + x && e.Gone() == d.Gone()
            else
              var s := |Last(d.committed)[0]|;
              && s <= |d.Content()|
              && e.Content() == d.Content()[s..] + x
              && e.Gone() == d.Gone() + s
              && forall p :: s <= p < |d.Content()| ==> e.Content()[p - s] == d.Content()[p]
  {
    var e := d.(committed := d.committed + [x]);
    if |d.committed| < CAPACITY {
      ConcatSnoc(d.committed, x);
      assert e.committed[..|e.committed| - |Last(e.committed)|] == [];
    } else {
      var live := Last(d.committed);
      assert Last(e.committed) == live[1..] + [x];
      ConcatSnoc(live[1..], x);
      assert d.Content() == live[0] + Concat(live[1..]);
      var k := |d.committed| - CAPACITY;
      assert e.committed[..k + 1] == d.committed[..k] + [live[0]];
      ConcatSnoc(d.committed[..k], live[0]);
    }
  }

  // ---- A reader among other users --------------------------------------------

  /** The bytes one call hands out through an open file. */
  function Got(s: Sys, c: Call, fd: Fd): seq<byte> {
    var r := Step(s, c).1;
    if c.Read? && c.fd == fd && r.Data? then r.bytes else []
  }

  /** The bytes handed out by the reads through one open file, in order. */
  function Delivered(s: Sys, calls: seq<Call>, fd: Fd): seq<byte> {
    if calls == [] then []
    else
      var front, c := calls[..|calls| - 1], calls[|calls| - 1];
      Delivered(s, front, fd) + Got(Run(s, front), c, fd)
  }

  ghost predicate OnlyReads(calls: seq<Call>, fd: Fd) {
    forall c :: c in calls && c.fd == fd ==> c.Read? || c.Open?
  }

  /** One call by anybody, seen from a reader. */
  lemma StepReader(s: Sys, c: Call, fd: Fd)
    requires fd in s.fpos && (c.fd == fd ==> c.Read? || c.Open?)
    ensures fd in Step(s, c).0.fpos && Step(s, c).0.fpos[fd] == s.fpos[fd] + |Got(s, c, fd)|
    ensures SliceAt(s.dev.Content(), s.fpos[fd], Got(s, c, fd))
  {
    if c.Read? && c.fd == fd {
      ReadIsSlice(s.dev, s.fpos[fd], c.count, c.fault);
    }
  }

  /** Reader stability: through one open file, with any calls by anybody else in
      between that evict nothing, the bytes delivered are exactly the slice of the
      final content from the first position to the last. */
  lemma {:induction false} ReaderStability(s: Sys, calls: seq<Call>, fd: Fd)
    requires fd in s.fpos && OnlyReads(calls, fd)
    requires var n := |Run(s, calls).dev.committed|;
             n <= CAPACITY || n == |s.dev.committed|
    ensures fd in Run(s, calls).fpos
    ensures Run(s, calls).fpos[fd] == s.fpos[fd] + |Delivered(s, calls, fd)|
    ensures SliceAt(Run(s, calls).dev.Content(), s.fpos[fd], Delivered(s, calls, fd))
  {
    if calls != [] {
      var front, c := calls[..|calls| - 1], calls[|calls| - 1];
      var m := Run(s, front);
      StepGrows(m, c);
      RunGrows(s, front);
      assert c in calls;
      ReaderStability(s, front, fd);
      StepReader(m, c, fd);
      JoinStep(m, c, fd, s.fpos[fd], Delivered(s, front, fd));
    }
  }

  lemma JoinStep(m: Sys, c: Call, fd: Fd, p: nat, sofar: seq<byte>)
    requires fd in m.fpos && m.fpos[fd] == p + |sofar| && SliceAt(m.dev.Content(), p, sofar)
    requires SliceAt(m.dev.Content(), m.fpos[fd], Got(m, c, fd))
    requires m.dev.committed <= Step(m, c).0.dev.committed
    requires var n := |Step(m, c).0.dev.committed|;
             n <= CAPACITY || n == |m.dev.committed|
    ensures SliceAt(Step(m, c).0.dev.Content(), p, sofar + Got(m, c, fd))
  {
    var e := Step(m, c).0;
    ContentGrows(m.dev, e.dev);
    SliceJoin(m.dev.Content(), m.dev.Content(), p, sofar, Got(m, c, fd));
    SliceJoin(m.dev.Content(), e.dev.Content(), p, sofar + Got(m, c, fd), []);
    assert sofar + Got(m, c, fd) + [] == sofar + Got(m, c, fd);
  }

  lemma ConcatMiddle(entries: seq<seq<byte>>, a: nat, b: nat, c: nat)
    requires a <= b <= c <= |entries|
    ensures Concat(entries[a..c]) == Concat(entries[a..b]) + Concat(entries[b..c])
  {
    assert entries[a..c] == entries[a..b] + entries[b..c];
    ConcatAppend(entries[a..b], entries[b..c]);
  }

  /** What is overwritten between two states is the entries evicted between them. */
  lemma GoneGrows(d: Dev, e: Dev)
    requires d.committed <= e.committed
    ensures d.Evicted() <= e.Evicted()
    ensures e.Gone() == d.Gone() + |Concat(e.committed[d.Evicted()..e.Evicted()])|
  {
    ConcatMiddle(e.committed, 0, d.Evicted(), e.Evicted());
    assert e.committed[0..d.Evicted()] == d.committed[..d.Evicted()];
  }

  /** With evictions too: whatever any read of any run returned is a slice of the
      whole history, found at the overwritten bytes plus the reader's position. */
  lemma ReadsComeFromHistory(s: Sys, before: seq<Call>, c: Call, after: seq<Call>)
    requires c.Read? && c.fd in Run(s, before).fpos
    ensures var m := Run(s, before);
            SliceAt(Concat(Run(s, before + [c] + after).dev.committed),
                    m.dev.Gone() + m.fpos[c.fd], Got(m, c, c.fd))
  {
    var m := Run(s, before);
    var end := Run(s, before + [c] + after);
    StepReader(m, c, c.fd);
    assert before + [c] + after == before + ([c] + after);
    RunAppend(s, before, [c] + after);
    RunGrows(m, [c] + after);
    HistorySlice(m.dev, end.dev, m.fpos[c.fd], Got(m, c, c.fd));
  }

  /** A slice of the content is a slice of any later history. */
  lemma HistorySlice(d: Dev, e: Dev, p: nat, got: seq<byte>)
    requires d.committed <= e.committed && SliceAt(d.Content(), p, got)
    ensures SliceAt(Concat(e.committed), d.Gone() + p, got)
  {
    ContentIsSuffix(d);
    var past := Concat(d.committed);
    if got != [] {
      SliceOfSuffix(past, d.Gone(), p, p + |got|);
    }
    assert e.committed == d.committed + e.committed[|d.committed|..];
    ConcatAppend(d.committed, e.committed[|d.committed|..]);
    SliceJoin(past, Concat(e.committed), d.Gone() + p, got, []);
    assert got + [] == got;
  }

  // ---- Reads among evictions ---------------------------------------------------

  /** One read: how many entries had been evicted by then, where in the whole history
      it read, and what it was given. */
  datatype Span = Span(evicted: nat, start: nat, bytes: seq<byte>)

  function SpanOf(m: Sys, c: Call, fd: Fd): seq<Span> {
    if c.Read? && c.fd == fd && fd in m.fpos
    then [Span(m.dev.Evicted(), m.dev.Gone() + m.fpos[fd], Got(m, c, fd))]
    else []
  }

  /** The reads through one open file, in order. */
  function Spans(s: Sys, calls: seq<Call>, fd: Fd): seq<Span> {
    if calls == [] then []
    else
      var front, c := calls[..|calls| - 1], calls[|calls| - 1];
      Spans(s, front, fd) + SpanOf(Run(s, front), c, fd)
  }

  /** A place in the history lies past a read by the size of the entries evicted since. */
  ghost predicate Resumes(entries: seq<seq<byte>>, span: Span, evicted: nat, at: nat) {
    && span.evicted <= evicted <= |entries|
    && at == span.start + |span.bytes| + |Concat(entries[span.evicted..evicted])|
  }

  /** Every read was given what the history holds at its place, and resumed the one before. */
  ghost predicate Follows(entries: seq<seq<byte>>, spans: seq<Span>) {
    spans == [] ||
    (var n := |spans| - 1;
     && Follows(entries, spans[..n])
     && spans[n].evicted <= |entries|
     && SliceAt(Concat(entries), spans[n].start, spans[n].bytes)
     && (0 < n ==> Resumes(entries, spans[n - 1], spans[n].evicted, spans[n].start)))
  }

  /** The reader's place now resumes its last read. */
  ghost predicate Waits(m: Sys, spans: seq<Span>, fd: Fd)
    requires fd in m.fpos
  {
    spans != [] ==>
      Resumes(m.dev.committed, spans[|spans| - 1], m.dev.Evicted(), m.dev.Gone() + m.fpos[fd])
  }

  lemma SliceGrows(entries: seq<seq<byte>>, more: seq<seq<byte>>, p: nat, got: seq<byte>)
    requires entries <= more && SliceAt(Concat(entries), p, got)
    ensures SliceAt(Concat(more), p, got)
  {
    assert more == entries + more[|entries|..];
    ConcatAppend(entries, more[|entries|..]);
    SliceJoin(Concat(entries), Concat(more), p, got, []);
    assert got + [] == got;
  }

  lemma ResumesGrows(entries: seq<seq<byte>>, more: seq<seq<byte>>, span: Span, evicted: nat, at: nat, later: nat)
    requires entries <= more && evicted <= later <= |more| && Resumes(entries, span, evicted, at)
    ensures Resumes(more, span, later, at + |Concat(more[evicted..later])|)
  {
    ConcatMiddle(more, span.evicted, evicted, later);
    assert more[span.evicted..evicted] == entries[span.evicted..evicted];
  }

  lemma {:induction false} FollowsGrows(entries: seq<seq<byte>>, more: seq<seq<byte>>, spans: seq<Span>)
    requires entries <= more && Follows(entries, spans)
    ensures Follows(more, spans)
  {
    if spans != [] {
      var n := |spans| - 1;
      FollowsGrows(entries, more, spans[..n]);
      SliceGrows(entries, more, spans[n].start, spans[n].bytes);
      if 0 < n {
        ResumesGrows(entries, more, spans[n - 1], spans[n].evicted, spans[n].start, spans[n].evicted);
        assert more[spans[n].evicted..spans[n].evicted] == [];
      }
    }
  }

  /** One more read. */
  lemma FollowsRead(m: Sys, c: Call, fd: Fd, spans: seq<Span>)
    requires fd in m.fpos && c.Read? && c.fd == fd
    requires Follows(m.dev.committed, spans) && Waits(m, spans, fd)
    ensures Follows(m.dev.committed, spans + SpanOf(m, c, fd))
    ensures fd in Step(m, c).0.fpos && Waits(Step(m, c).0, spans + SpanOf(m, c, fd), fd)
  {
    StepReader(m, c, fd);
    HistorySlice(m.dev, m.dev, m.fpos[fd], Got(m, c, fd));
    var all := spans + SpanOf(m, c, fd);
    assert all[..|spans|] == spans;
    assert m.dev.committed[m.dev.Evicted()..m.dev.Evicted()] == [];
  }

  /** Somebody else's call. */
  lemma FollowsOther(m: Sys, c: Call, fd: Fd, spans: seq<Span>)
    requires fd in m.fpos && (c.fd == fd ==> c.Open?)
    requires Follows(m.dev.committed, spans) && Waits(m, spans, fd)
    ensures fd in Step(m, c).0.fpos && Follows(Step(m, c).0.dev.committed, spans) && Waits(Step(m, c).0, spans, fd)
  {
    var e := Step(m, c).0;
    StepReader(m, c, fd);
    StepGrows(m, c);
    FollowsGrows(m.dev.committed, e.dev.committed, spans);
    GoneGrows(m.dev, e.dev);
    if spans != [] {
      ResumesGrows(m.dev.committed, e.dev.committed, spans[|spans| - 1], m.dev.Evicted(),
                   m.dev.Gone() + m.fpos[fd], e.dev.Evicted());
    }
  }

  /** With evictions the driver leaves positions as they are. So every read of a run
      through one file gives what the history holds at its place, and starts where the
      one before ended plus the total size of the entries evicted in between. */
  lemma {:induction false} ReaderProgress(s: Sys, calls: seq<Call>, fd: Fd)
    requires fd in s.fpos && OnlyReads(calls, fd)
    ensures var e := Run(s, calls);
            fd in e.fpos && Follows(e.dev.committed, Spans(s, calls, fd)) && Waits(e, Spans(s, calls, fd), fd)
  {
    if calls != [] {
      var front, c := calls[..|calls| - 1], calls[|calls| - 1];
      assert c in calls;
      ReaderProgress(s, front, fd);
      var m, spans := Run(s, front), Spans(s, front, fd);
      if c.Read? && c.fd == fd {
        FollowsRead(m, c, fd, spans);
      } else {
        FollowsOther(m, c, fd, spans);
        assert spans + SpanOf(m, c, fd) == spans;
      }
    }
  }

  /** Any two of these reads. */
  lemma {:induction false} SpansApart(entries: seq<seq<byte>>, spans: seq<Span>, i: nat, j: nat)
    requires Follows(entries, spans) && i < j < |spans|
    ensures var a, b := spans[i], spans[j];
            && SliceAt(Concat(entries), a.start, a.bytes) && SliceAt(Concat(entries), b.start, b.bytes)
            && a.evicted <= b.evicted <= |entries|
            && a.start + |a.bytes| + |Concat(entries[a.evicted..b.evicted])| <= b.start
            && (j == i + 1 ==> Resumes(entries, a, b.evicted, b.start))
    decreases |spans|
  {
    var n := |spans| - 1;
    if j < n {
      SpansApart(entries, spans[..n], i, j);
    } else if i < n - 1 {
      SpansApart(entries, spans[..n], i, n - 1);
      ConcatMiddle(entries, spans[i].evicted, spans[n - 1].evicted, spans[n].evicted);
    }
  }

  /** Entries have bytes, so only an empty stretch of the history has none. */
  lemma StretchSize(entries: seq<seq<byte>>, limit: nat, a: nat, b: nat)
    requires WellFormed(entries, limit) && a <= b <= |entries|
    ensures |Concat(entries[a..b])| == 0 <==> a == b
  {
    if a < b {
      EntryWellFormed(entries, limit, a);
      assert entries[a..b][0] == entries[a];
    }
  }

  /** No reader is ever given a byte of the history twice, or an earlier byte after a
      later one; between two reads in a row it misses exactly as many bytes as the
      entries evicted in between hold, so it misses none if and only if none was evicted. */
  lemma ReadsNeverOverlap(s: Sys, calls: seq<Call>, fd: Fd, i: nat, j: nat)
    requires s.dev.Inv() && fd in s.fpos && OnlyReads(calls, fd) && i < j < |Spans(s, calls, fd)|
    ensures var (a, b) := (Spans(s, calls, fd)[i], Spans(s, calls, fd)[j]);
            var entries := Run(s, calls).dev.committed;
            && SliceAt(Concat(entries), a.start, a.bytes) && SliceAt(Concat(entries), b.start, b.bytes)
            && a.evicted <= b.evicted <= |entries|
            && a.start + |a.bytes| + |Concat(entries[a.evicted..b.evicted])| <= b.start
            && (j == i + 1 ==>
                  && b.start == a.start + |a.bytes| + |Concat(entries[a.evicted..b.evicted])|
                  && (b.start == a.start + |a.bytes| <==> a.evicted == b.evicted))
  {
    var spans, e := Spans(s, calls, fd), Run(s, calls);
    ReaderProgress(s, calls, fd);
    RunInv(s, calls);
    SpansApart(e.dev.committed, spans, i, j);
    StretchSize(e.dev.committed, e.dev.limit, spans[i].evicted, spans[j].evicted);
  }

  function SpanBytes(spans: seq<Span>): seq<byte> {
    if spans == [] then [] else SpanBytes(spans[..|spans| - 1]) + spans[|spans| - 1].bytes
  }

  /** The bytes delivered are those of the reads. */
  lemma {:induction false} SpansDeliver(s: Sys, calls: seq<Call>, fd: Fd)
    ensures Delivered(s, calls, fd) == SpanBytes(Spans(s, calls, fd))
  {
    if calls != [] {
      var front, c := calls[..|calls| - 1], calls[|calls| - 1];
      SpansDeliver(s, front, fd);
      var spans, more := Spans(s, front, fd), SpanOf(Run(s, front), c, fd);
      assert if more == [] then spans + more == spans else (spans + more)[..|spans|] == spans;
    }
  }

  lemma DeliveredSnoc(s: Sys, calls: seq<Call>, c: Call, fd: Fd)
    ensures Run(s, calls + [c]) == Step(Run(s, calls), c).0
    ensures Delivered(s, calls + [c], fd) == Delivered(s, calls, fd) + Got(Run(s, calls), c, fd)
  {
    assert (calls + [c])[..|calls|] == calls;
  }

  /** A run of three calls, given the two states in between. */
  lemma DeliveredThree(s: Sys, t: Sys, u: Sys, a: Call, b: Call, c: Call, fd: Fd)
    requires t == Step(s, a).0 && u == Step(t, b).0
    ensures Run(s, [a, b, c]) == Step(u, c).0
    ensures Delivered(s, [a, b, c], fd) == Got(s, a, fd) + Got(t, b, fd) + Got(u, c, fd)
  {
    ThreeCalls(a, b, c);
    RunOne(s, a);
    DeliveredOne(s, a, fd);
    DeliveredSnoc(s, [a], b, fd);
    DeliveredSnoc(s, [a] + [b], c, fd);
  }

  lemma ThreeCalls(a: Call, b: Call, c: Call)
    ensures [a, b, c] == [a] + [b] + [c]
  {
  }

  lemma DeliveredOne(s: Sys, a: Call, fd: Fd)
    ensures Delivered(s, [a], fd) == Got(s, a, fd)
  {
    assert Delivered(s, [a], fd) == [] + Got(s, a, fd);
  }

  /** What one evicting commit does to a reader that has read the oldest of ten entries:
      when the next entry has the same size, its next read skips that entry whole,
      although it is still there to be read, first in the content. */
  lemma SkipsEntry(s: Sys, fd: Fd, w: Fd, x: seq<byte>)
    requires s.dev.Inv() && !s.dev.locked && s.dev.pending == [] && CAPACITY <= |s.dev.committed|
    requires fd in s.fpos && w in s.fpos && fd != w && s.fpos[fd] == 0
    requires EndsInNewline(x) && |x| <= s.dev.limit
    requires |Last(s.dev.committed)[0]| == |Last(s.dev.committed)[1]|
    ensures var live := Last(s.dev.committed);
            var calls := [Read(fd, |live[0]|, false, false), GoodWrite(w, x), Read(fd, |live[2]|, false, false)];
            && Delivered(s, calls, fd) == live[0] + live[2]
            && Run(s, calls).dev.committed == s.dev.committed + [x]
            && Last(s.dev.committed + [x])[0] == live[1]
  {
    var live := Last(s.dev.committed);
    var a, b, c := Read(fd, |live[0]|, false, false), GoodWrite(w, x), Read(fd, |live[2]|, false, false);
    LiveNonempty(s.dev, 0);
    LiveNonempty(s.dev, 2);
    var t := Step(s, a).0;
    DeliveredThree(s, t, Step(t, b).0, a, b, c, fd);
    ReadsFirst(s, fd);
    CommitsLine(t, w, x);
    LastSnoc(s.dev.committed, x);
    ReadsSecond(Step(t, b).0, fd);
    NothingBetween(live[0], live[2]);
  }

  lemma NothingBetween(a: seq<byte>, b: seq<byte>)
    ensures a + [] + b == a + b
  {
  }

  lemma LiveNonempty(d: Dev, k: nat)
    requires d.Inv() && k < |Last(d.committed)|
    ensures Last(d.committed)[k] != []
  {
    EntryWellFormed(d.committed, d.limit, |d.committed| - |Last(d.committed)| + k);
  }

  /** A complete line written to a device with nothing pending. */
  lemma CommitsLine(s: Sys, fd: Fd, x: seq<byte>)
    requires fd in s.fpos && !s.dev.locked && s.dev.pending == [] && x != [] && EndsInNewline(x) && |x| <= s.dev.limit
    ensures var e := Step(s, GoodWrite(fd, x)).0;
            && e.dev.committed == s.dev.committed + [x] && e.dev.pending == [] && !e.dev.locked
            && e.dev.limit == s.dev.limit && e.fpos == s.fpos[fd := s.fpos[fd] + |x|]
  {
    assert x[..|x|] == x && [] + x == x;
  }

  /** Reading the first entry. */
  lemma ReadsFirst(s: Sys, fd: Fd)
    requires fd in s.fpos && s.fpos[fd] == 0 && !s.dev.locked && s.dev.committed != [] && Last(s.dev.committed)[0] != []
    ensures var live := Last(s.dev.committed);
            var (t, r) := Step(s, Read(fd, |live[0]|, false, false));
            r == Data(live[0]) && t.dev == s.dev && t.fpos == s.fpos[fd := |live[0]|]
  {
    var live := Last(s.dev.committed);
    assert live[0][0..|live[0]|] == live[0];
  }

  /** Reading the second entry, at the position where the first one ends. */
  lemma ReadsSecond(s: Sys, fd: Fd)
    requires fd in s.fpos && !s.dev.locked && 2 <= |s.dev.committed| && Last(s.dev.committed)[1] != []
    requires s.fpos[fd] == |Last(s.dev.committed)[0]|
    ensures var live := Last(s.dev.committed);
            var (t, r) := Step(s, Read(fd, |live[1]|, false, false));
            r == Data(live[1]) && t.dev == s.dev
  {
    var live := Last(s.dev.committed);
    var sizes := Sizes(live);
    assert sizes[..1] == [sizes[0]];
    assert Sum([sizes[0]]) == sizes[0] + Sum([]);
    LocateIff(sizes, s.fpos[fd], 1, 0);
    assert live[1][0..|live[1]|] == live[1];
  }

  /** Complete lines written one by one become one entry each. */
  lemma {:induction false} WritesCommit(s: Sys, fd: Fd, lines: seq<seq<byte>>)
    requires fd in s.fpos && !s.dev.locked && s.dev.pending == []
    requires forall i :: 0 <= i < |lines| ==> lines[i] != [] && EndsInNewline(lines[i]) && |lines[i]| <= s.dev.limit
    ensures var e := Run(s, Writes(fd, lines));
            && e.dev.committed == s.dev.committed + lines && e.dev.pending == [] && !e.dev.locked
            && e.dev.limit == s.dev.limit && fd in e.fpos
            && forall g :: g in s.fpos && g != fd ==> g in e.fpos && e.fpos[g] == s.fpos[g]
  {
    if lines != [] {
      var n := |lines| - 1;
      WritesCommit(s, fd, lines[..n]);
      assert Writes(fd, lines)[..n] == Writes(fd, lines[..n]);
      assert lines == lines[..n] + [lines[n]];
      CommitsLine(Run(s, Writes(fd, lines[..n])), fd, lines[n]);
    }
  }

  /** A letter and a newline. */
  function Letter(k: nat): seq<byte>
    requires k < 26
  {
    [65 + k, NEWLINE]
  }

  /** The first lines of the alphabet. */
  function Lines(n: nat): (r: seq<seq<byte>>)
    requires n <= 26
    ensures |r| == n
  {
    seq(n, k requires 0 <= k < n => Letter(k))
  }

  /** A module just loaded and opened twice, with ten lines written through file 1. */
  function Filled(limit: nat): Sys {
    Run(Run(Init(limit), [Open(0), Open(1)]), Writes(1, Lines(10)))
  }

  lemma FilledHolds(limit: nat)
    requires 2 <= limit
    ensures var s := Filled(limit);
            && s.dev.committed == Lines(10) && s.dev.pending == [] && !s.dev.locked && s.dev.limit == limit
            && 0 in s.fpos && s.fpos[0] == 0 && 1 in s.fpos && s.dev.Inv()
  {
    var start := Run(Init(limit), [Open(0), Open(1)]);
    RunTwo(Init(limit), Open(0), Open(1));
    WritesCommit(start, 1, Lines(10));
    RunInv(start, Writes(1, Lines(10)));
  }

  /** Such a run: the lines A to J are written, a reader reads A, K is written and pushes
      A out, and the reader's next read gives C. B, which it never gets, is now the first
      line that can be read. */
  lemma ReaderSkips(limit: nat)
    requires 2 <= limit
    ensures var calls := [Read(0, 2, false, false), GoodWrite(1, Letter(10)), Read(0, 2, false, false)];
            && Delivered(Filled(limit), calls, 0) == Letter(0) + Letter(2)
            && Run(Filled(limit), calls).dev.committed == Lines(11)
            && Last(Lines(11))[0] == Letter(1)
  {
    FilledHolds(limit);
    SkipsLine(Filled(limit));
  }

  lemma SkipsLine(s: Sys)
    requires s.dev.Inv() && !s.dev.locked && s.dev.committed == Lines(10) && s.dev.pending == []
    requires 2 <= s.dev.limit && 0 in s.fpos && s.fpos[0] == 0 && 1 in s.fpos
    ensures var calls := [Read(0, 2, false, false), GoodWrite(1, Letter(10)), Read(0, 2, false, false)];
            && Delivered(s, calls, 0) == Letter(0) + Letter(2)
            && Run(s, calls).dev.committed == Lines(11)
            && Last(Lines(11))[0] == Letter(1)
  {
    assert Lines(10) + [Letter(10)] == Lines(11);
    SkipsEntry(s, 0, 1, Letter(10));
  }

  // ---- Reading to the end ------------------------------------------------------

  /** Everything from position n on; nothing past the end. */
  function Drop(s: seq<byte>, n: nat): seq<byte> {
    s[Min(n, |s|)..]
  }

  function Reads(fd: Fd, counts: seq<nat>): (r: seq<Call>)
    ensures |r| == |counts|
  {
    seq(|counts|, i requires 0 <= i < |counts| => Read(fd, counts[i], false, false))
  }

  lemma {:induction false} ReadsKeepDevice(s: Sys, fd: Fd, counts: seq<nat>)
    ensures Run(s, Reads(fd, counts)).dev == s.dev
  {
    if counts != [] {
      assert Reads(fd, counts)[..|counts| - 1] == Reads(fd, counts[..|counts| - 1]);
      ReadsKeepDevice(s, fd, counts[..|counts| - 1]);
    }
  }

  /** Reading with any positive counts until a read returns nothing delivers
      exactly the content from the starting position on. */
  lemma ReadToEnd(s: Sys, fd: Fd, counts: seq<nat>, last: nat)
    requires fd in s.fpos && 0 < last
    requires Step(Run(s, Reads(fd, counts)), Read(fd, last, false, false)).1 == Data([])
    ensures Delivered(s, Reads(fd, counts), fd)
         == Drop(s.dev.Content(), s.fpos[fd])
  {
    var calls := Reads(fd, counts);
    var e := Run(s, calls);
    ReadsKeepDevice(s, fd, counts);
    ReaderStability(s, calls, fd);
    ReadIsSlice(s.dev, e.fpos[fd], last, false);
    SliceToEnd(s.dev.Content(), s.fpos[fd], Delivered(s, calls, fd));
  }

  lemma SliceToEnd(content: seq<byte>, p: nat, got: seq<byte>)
    requires SliceAt(content, p, got) && |content| <= p + |got|
    ensures got == Drop(content, p)
  {
  }

  /** Such a loop ends: each read either returns nothing or moves on. */
  lemma {:induction false} ReadsAdvance(s: Sys, fd: Fd, counts: seq<nat>)
    requires fd in s.fpos && !s.dev.locked
    requires forall i :: 0 <= i < |counts| ==> 0 < counts[i]
    ensures var e := Run(s, Reads(fd, counts));
            fd in e.fpos && Min(s.fpos[fd] + |counts|, |s.dev.Content()|) <= e.fpos[fd]
  {
    if counts != [] {
      var front := counts[..|counts| - 1];
      assert Reads(fd, counts)[..|counts| - 1] == Reads(fd, front);
      ReadsAdvance(s, fd, front);
      ReadsKeepDevice(s, fd, front);
      var m := Run(s, Reads(fd, front));
      ReadIsSlice(m.dev, m.fpos[fd], counts[|counts| - 1], false);
    }
  }

  /** Where an llseek asks to go. */
  function Target(s: Sys, fd: Fd, off: int, whence: Whence): int
    requires fd in s.fpos
  {
    off + match whence
          case SeekSet => 0
          case SeekCur => s.fpos[fd]
          case SeekEnd => |s.dev.Content()|
          case SeekOther => 0
  }

  /** llseek succeeds exactly inside the content, end included, or when it asks to stay
      where it is; a refused one changes nothing. */
  lemma LlseekIff(s: Sys, fd: Fd, off: int, whence: Whence)
    requires fd in s.fpos && !s.dev.locked
    ensures var (t, r) := Step(s, Llseek(fd, off, whence, false));
            var target := Target(s, fd, off, whence);
            var ok := && whence != SeekOther
                      && (0 <= target <= |s.dev.Content()| || (whence == SeekCur && off == 0));
            && (ok ==> 0 <= target && r == Moved(target) && t == s.(fpos := s.fpos[fd := target]))
            && (!ok ==> r == Error(EINVAL) && t == s)
  {
    assert s.fpos == s.fpos[fd := s.fpos[fd]];
  }

  /** Reading to the end after a successful seek delivers the content from there on. */
  lemma LlseekThenReadToEnd(s: Sys, fd: Fd, off: int, whence: Whence, counts: seq<nat>, last: nat)
    requires fd in s.fpos && !s.dev.locked && 0 < last
    requires Step(s, Llseek(fd, off, whence, false)).1.Moved?
    requires var t := Step(s, Llseek(fd, off, whence, false)).0;
             Step(Run(t, Reads(fd, counts)), Read(fd, last, false, false)).1 == Data([])
    ensures 0 <= Target(s, fd, off, whence)
    ensures Delivered(Step(s, Llseek(fd, off, whence, false)).0, Reads(fd, counts), fd)
         == Drop(s.dev.Content(), Target(s, fd, off, whence))
  {
    LlseekIff(s, fd, off, whence);
    ReadToEnd(Step(s, Llseek(fd, off, whence, false)).0, fd, counts, last);
  }

  // ---- Seeking -----------------------------------------------------------------

  /** The server packs both numbers into one word, of which one byte arrives. */
  function EncodeSeek(command: bv32, offset: bv32): bv32 {
    (command << 4) | offset
  }

  function FirstByte(word: bv32): bv8 {
    (word & 0xFF) as bv8
  }

  /** Both numbers survive the trip, whatever the other three bytes hold, exactly
      when each fits four bits. */
  lemma SeekRoundTripIff(command: bv32, offset: bv32, garbage: bv32)
    ensures var word := ReceivedWord(FirstByte(EncodeSeek(command, offset)), garbage);
            DecodeCommand(word) == command && DecodeOffset(word) == offset
            <==> command < 16 && offset < 16
  {
  }

  /** Every pair, in range or not: what the driver decodes is the low four bits of the offset,
      and the low four bits of the command merged with the next four of the offset. */
  lemma SeekDecodes(command: bv32, offset: bv32, garbage: bv32)
    ensures var word := ReceivedWord(FirstByte(EncodeSeek(command, offset)), garbage);
            DecodeOffset(word) == offset % 16 && DecodeCommand(word) == (command | (offset >> 4)) & 0xF
  {
  }

  /** The call leaves the lock held exactly when the low four bits of the command,
      merged with the next four bits of the offset, are ten or more. */
  lemma SeekLocksIff(s: Sys, fd: Fd, command: bv32, offset: bv32, garbage: bv32)
    requires fd in s.fpos && !s.dev.locked
    ensures var c := Ioctl(fd, true, FirstByte(EncodeSeek(command, offset)), garbage, false, false);
            Step(s, c).0.dev.locked <==> ((command | (offset >> 4)) & 0xF) >= 10
  {
  }

  /** Seeking to a position is dropping whole entries, then bytes. */
  lemma DropSeek(d: Dev, command: nat, offset: nat)
    ensures var live := Last(d.committed);
            Drop(d.Content(), SeekPos(d, command, offset)) == Drop(Concat(live[Min(command, |live|)..]), offset)
  {
    var live := Last(d.committed);
    var k := Min(command, |live|);
    assert live == live[..k] + live[k..];
    ConcatAppend(live[..k], live[k..]);
    var (a, b) := (Concat(live[..k]), Concat(live[k..]));
    assert offset <= |b| ==> (a + b)[|a| + offset..] == b[offset..];
  }

  function SeekCall(fd: Fd, command: bv32, offset: bv32, garbage: bv32): Call {
    Ioctl(fd, true, FirstByte(EncodeSeek(command, offset)), garbage, false, false)
  }

  /** Seek end to end: packing, the one-byte copy, unpacking, positioning, and
      reading to the end deliver the entries from the command-th on, without the
      first `offset` bytes; nothing if that is past the end. */
  lemma SeekThenReadToEnd(s: Sys, fd: Fd, command: bv32, offset: bv32, garbage: bv32, counts: seq<nat>, last: nat)
    requires fd in s.fpos && !s.dev.locked && command < 10 && offset < 16 && 0 < last
    requires var t := Step(s, SeekCall(fd, command, offset, garbage)).0;
             Step(Run(t, Reads(fd, counts)), Read(fd, last, false, false)).1 == Data([])
    ensures var (t, r) := Step(s, SeekCall(fd, command, offset, garbage));
            var live := Last(s.dev.committed);
            && r == Count(0)
            && Delivered(t, Reads(fd, counts), fd)
               == Drop(Concat(live[Min(command as nat, |live|)..]), offset as nat)
  {
    SeekRoundTripIff(command, offset, garbage);
    var (t, r) := Step(s, SeekCall(fd, command, offset, garbage));
    ReadToEnd(t, fd, counts, last);
    DropSeek(s.dev, command as nat, offset as nat);
  }
}
