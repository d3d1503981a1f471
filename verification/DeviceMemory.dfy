/** The memory behind the device: blocks, ring history and pending entry, and the
    steps the driver takes on them. */
module DeviceMemory {
  import opened Bytes
  import opened Positions
  import opened CircularBuffer
  import opened Pointers
  import opened Ownership
  import opened DeviceSpec
  import opened DeviceRuns

  // ---- The driver's memory, as values ------------------------------------------

  /** Ring history, pending entry, the blocks they point to, and two things only a
      proof can see: the contents of every entry ever committed, and the live
      blocks that nothing in the device points to. */
  datatype Mem = Mem(
    limit: nat,
    blocks: Blocks,
    history: seq<Entry>,
    pend: Entry,
    committed: seq<seq<byte>>,
    leaked: set<Ptr>
  ) {
    ghost function Pending(): seq<byte> {
      if pend.buffptr in blocks && pend.size <= |blocks[pend.buffptr]|
      then blocks[pend.buffptr][..pend.size] else []
    }

    ghost function Abs(locked: bool): Dev {
      Dev(limit, committed, Pending(), pend.size == 0 && pend.buffptr != NULL, |leaked|, locked)
    }

    /** Every block has one owner, the ring's blocks hold the last ten entries, and
        no size exceeds what the allocator can give. */
    ghost predicate Sound() {
      && 10 * limit < TWO31
      && |history| == |committed|
      && Owned(blocks, Last(history), pend, leaked)
      && Holds(blocks, Last(history), Last(committed))
      && (0 < pend.size ==> pend.buffptr in blocks && pend.size <= |blocks[pend.buffptr]|)
      && Abs(false).Inv()
    }
  }

  // ---- The steps of the driver, on memory ---------------------------------------

  datatype MemStep =
    | Allocate(p: Ptr, bytes: seq<byte>)           // a fresh block that nothing points to yet
    | Take(k: Ptr, n: nat)                         // the pending entry takes such a block
    | Merge(k: Ptr, temp: Ptr, joined: seq<byte>)  // a fresh block replaces it and the pending one
    | Commit                                       // the pending entry moves into the ring

  ghost predicate Allowed(m: Mem, step: MemStep) {
    match step
    case Allocate(p, bytes) => p != NULL && p !in m.blocks
    case Take(k, n) =>
      m.pend.size == 0 && k in m.leaked && k in m.blocks && n <= |m.blocks[k]| && n <= m.limit
    case Merge(k, temp, joined) =>
      0 < m.pend.size && k in m.leaked && temp != NULL && temp !in m.blocks && 0 < |joined| <= m.limit
    case Commit =>
      && m.pend.buffptr in m.blocks && 0 < m.pend.size == |m.blocks[m.pend.buffptr]|
      && EndsInNewline(m.Pending())
  }

  ghost function Apply(m: Mem, step: MemStep): Mem {
    match step
    case Allocate(p, bytes) => m.(blocks := m.blocks[p := bytes], leaked := m.leaked + {p})
    case Take(k, n) => m.(pend := Entry(k, n), leaked := m.leaked - {k} + PtrOf(m.pend))
    case Merge(k, temp, joined) =>
      m.(blocks := m.blocks[temp := joined] - {m.pend.buffptr} - {k},
         pend := Entry(temp, |joined|), leaked := m.leaked - {k})
    case Commit =>
      m.(blocks := if |m.history| < CAPACITY then m.blocks else m.blocks - {Last(m.history)[0].buffptr},
         history := m.history + [m.pend], pend := EMPTY, committed := m.committed + [m.Pending()])
  }

  ghost function Replay(limit: nat, trace: seq<MemStep>): Mem {
    if trace == [] then Mem(limit, map[], [], EMPTY, [], {})
    else Apply(Replay(limit, trace[..|trace| - 1]), trace[|trace| - 1])
  }

  ghost predicate Legal(limit: nat, trace: seq<MemStep>) {
    trace == [] ||
    (var front := trace[..|trace| - 1];
     Legal(limit, front) && Allowed(Replay(limit, front), trace[|trace| - 1]))
  }

  /** The memory is the one a legal sequence of steps leads to. */
  ghost predicate Reached(m: Mem, trace: seq<MemStep>) {
    10 * m.limit < TWO31 && Legal(m.limit, trace) && m == Replay(m.limit, trace)
  }

  lemma Extend(m: Mem, trace: seq<MemStep>, step: MemStep)
    requires Reached(m, trace) && Allowed(m, step)
    ensures Reached(Apply(m, step), trace + [step])
  {
  }

  /** Ownership over every run: whatever legal steps were taken, every live block
      has one owner and the ring holds the last ten entries. */
  lemma {:induction false} ReachedSound(m: Mem, trace: seq<MemStep>)
    requires Reached(m, trace)
    ensures m.Sound()
    decreases |trace|
  {
    if trace == [] {
      EmptySound(m.limit);
    } else {
      var front, step := trace[..|trace| - 1], trace[|trace| - 1];
      var before := Replay(m.limit, front);
      ReplayLimit(m.limit, front);
      ReachedSound(before, front);
      StepSound(before, step);
    }
  }

  lemma EmptySound(limit: nat)
    requires 10 * limit < TWO31
    ensures Mem(limit, map[], [], EMPTY, [], {}).Sound()
  {
  }

  lemma {:induction false} ReplayLimit(limit: nat, trace: seq<MemStep>)
    ensures Replay(limit, trace).limit == limit
  {
    if trace != [] {
      ReplayLimit(limit, trace[..|trace| - 1]);
    }
  }

  lemma StepSound(m: Mem, step: MemStep)
    requires m.Sound() && Allowed(m, step)
    ensures Apply(m, step).Sound()
  {
    match step
    case Allocate(p, bytes) => SoundAllocate(m, p, bytes);
    case Take(k, n) => SoundTake(m, k, n);
    case Merge(k, temp, joined) => SoundMerge(m, k, temp, joined);
    case Commit => SoundCommit(m);
  }

  lemma SoundAllocate(m: Mem, p: Ptr, bytes: seq<byte>)
    requires m.Sound() && p != NULL && p !in m.blocks
    ensures Apply(m, Allocate(p, bytes)).Sound()
    ensures Apply(m, Allocate(p, bytes)).Pending() == m.Pending()
    ensures |Apply(m, Allocate(p, bytes)).leaked| == |m.leaked| + 1
  {
    OwnFresh(m.blocks, Last(m.history), m.pend, m.leaked, Last(m.committed), p, bytes);
  }

  lemma SoundTake(m: Mem, p: Ptr, n: nat)
    requires m.Sound() && m.pend.size == 0 && p in m.leaked
    requires p in m.blocks && n <= |m.blocks[p]| && n <= m.limit
    ensures Apply(m, Take(p, n)).Sound()
    ensures Apply(m, Take(p, n)).Pending() == m.blocks[p][..n]
    ensures |Apply(m, Take(p, n)).leaked| == |m.leaked| - 1 + (if m.pend.buffptr == NULL then 0 else 1)
  {
    Adopt(m.blocks, Last(m.history), m.pend, m.leaked, p, n);
  }

  lemma SoundMerge(m: Mem, k: Ptr, temp: Ptr, bytes: seq<byte>)
    requires m.Sound() && 0 < m.pend.size && k in m.leaked
    requires temp != NULL && temp !in m.blocks && 0 < |bytes| <= m.limit
    ensures Apply(m, Merge(k, temp, bytes)).Sound()
    ensures Apply(m, Merge(k, temp, bytes)).Pending() == bytes
    ensures temp in Apply(m, Merge(k, temp, bytes)).blocks && Apply(m, Merge(k, temp, bytes)).blocks[temp] == bytes
    ensures |Apply(m, Merge(k, temp, bytes)).leaked| == |m.leaked| - 1
  {
    MergeBlocks(m.blocks, Last(m.history), m.pend, m.leaked, Last(m.committed), k, temp, bytes);
  }

  lemma SoundCommit(m: Mem)
    requires m.Sound() && 0 < m.pend.size == |m.blocks[m.pend.buffptr]| && EndsInNewline(m.Pending())
    ensures |m.history| >= CAPACITY ==> Last(m.history)[0].buffptr in m.blocks
    ensures NULL !in m.blocks
    ensures Apply(m, Commit).Sound()
  {
    InvCommit(m.Abs(false), []);
    assert m.Pending() + [] == m.Pending();
    assert m.Pending() == m.blocks[m.pend.buffptr];
    if |m.history| < CAPACITY {
      CommitRoom(m.blocks, m.history, m.pend, m.leaked, m.committed);
    } else {
      CommitFull(m.blocks, m.history, m.pend, m.leaked, m.committed);
    }
  }

  /** What copy_from_user leaves in a buffer when only `copied` bytes arrive. */
  function Padded(data: seq<byte>, copied: nat): (r: seq<byte>)
    requires copied <= |data|
    ensures |r| == |data| && r[..copied] == data[..copied]
    ensures forall i :: copied <= i < |data| ==> r[i] == NUL
    ensures copied == |data| ==> r == data
  {
    data[..copied] + Zeros(|data| - copied)
  }

  /** The memory after the bytes of a write joined the pending ones. */
  ghost function Joined(m: Mem, k: Ptr, temp: Ptr, data: seq<byte>, copied: nat): Mem
    requires copied <= |data|
  {
    var m1 := Apply(m, Allocate(k, Padded(data, copied)));
    if m.pend.size == 0 then Apply(m1, Take(k, copied))
    else Apply(m1, Merge(k, temp, m.Pending() + data[..copied]))
  }

  /** `e` is `m` with these bytes joined to the pending ones in a block of its own. */
  ghost predicate Joins(m: Mem, e: Mem, got: seq<byte>, exact: bool) {
    var d := m.Abs(false);
    && e.Abs(false) == d.(leaks := d.leaks + (if d.stale then 1 else 0),
                          pending := d.pending + got, stale := d.pending + got == [])
    && NULL !in e.blocks
    && e.pend.buffptr in e.blocks && e.pend.size == |e.Pending()|
    && (exact ==> e.pend.size == |e.blocks[e.pend.buffptr]|)
  }

  lemma AllocateAbs(m: Mem, trace: seq<MemStep>, p: Ptr, bytes: seq<byte>)
    requires Reached(m, trace) && Allowed(m, Allocate(p, bytes))
    ensures Apply(m, Allocate(p, bytes)).Abs(false) == m.Abs(false).(leaks := |m.leaked| + 1)
  {
    ReachedSound(m, trace);
    SoundAllocate(m, p, bytes);
  }

  lemma TakeAbs(m: Mem, trace: seq<MemStep>, k: Ptr, n: nat)
    requires Reached(m, trace) && Allowed(m, Take(k, n))
    ensures NULL !in m.blocks
    ensures var d := m.Abs(false);
            Apply(m, Take(k, n)).Abs(false) == d.(pending := m.blocks[k][..n], stale := n == 0,
                                                  leaks := |m.leaked| - 1 + if d.stale then 1 else 0)
  {
    ReachedSound(m, trace);
    SoundTake(m, k, n);
  }

  lemma MergeAbs(m: Mem, trace: seq<MemStep>, k: Ptr, temp: Ptr, joined: seq<byte>)
    requires Reached(m, trace) && Allowed(m, Merge(k, temp, joined))
    ensures var e := Apply(m, Merge(k, temp, joined));
            && NULL !in e.blocks && temp in e.blocks && e.blocks[temp] == joined
            && e.Abs(false) == m.Abs(false).(pending := joined, stale := false, leaks := |m.leaked| - 1)
  {
    ReachedSound(m, trace);
    SoundMerge(m, k, temp, joined);
  }

  lemma JoinsFirst(m: Mem, trace: seq<MemStep>, k: Ptr, data: seq<byte>, copied: nat)
    requires Reached(m, trace) && copied <= |data| <= m.limit && k != NULL && k !in m.blocks && m.pend.size == 0
    ensures Joins(m, Joined(m, k, NULL, data, copied), data[..copied], copied == |data|)
  {
    var a := Allocate(k, Padded(data, copied));
    AllocateAbs(m, trace, k, Padded(data, copied));
    Extend(m, trace, a);
    TakeAbs(Apply(m, a), trace + [a], k, copied);
  }

  lemma JoinsMore(m: Mem, trace: seq<MemStep>, k: Ptr, temp: Ptr, data: seq<byte>, copied: nat)
    requires Reached(m, trace) && copied <= |data| <= m.limit && k != NULL && k !in m.blocks && 0 < m.pend.size
    requires temp != NULL && temp !in m.blocks && temp != k && 0 < |m.Pending()| + copied <= m.limit
    ensures Joins(m, Joined(m, k, temp, data, copied), data[..copied], copied == |data|)
  {
    var a := Allocate(k, Padded(data, copied));
    AllocateAbs(m, trace, k, Padded(data, copied));
    Extend(m, trace, a);
    MergeAbs(Apply(m, a), trace + [a], k, temp, m.Pending() + data[..copied]);
  }

  // ---- What the driver may rely on --------------------------------------------------

  lemma PendingSize(m: Mem, trace: seq<MemStep>)
    requires Reached(m, trace)
    ensures |m.Pending()| == m.pend.size
  {
    ReachedSound(m, trace);
  }

  /** Merging: the blocks involved are live, different, and large enough. */
  lemma MergeReady(m: Mem, trace: seq<MemStep>, k: Ptr)
    requires Reached(m, trace) && k in m.leaked
    ensures k in m.blocks && k != m.pend.buffptr && NULL !in m.blocks && |m.Pending()| == m.pend.size
    ensures 0 < m.pend.size ==> m.pend.buffptr in m.blocks && m.pend.size <= |m.blocks[m.pend.buffptr]|
  {
    ReachedSound(m, trace);
    assert k in m.blocks.Keys;
  }

  /** Committing: what the ring gives up is a live block. */
  lemma CommitReady(m: Mem, trace: seq<MemStep>)
    requires Reached(m, trace) && Allowed(m, Commit)
    ensures NULL !in m.blocks
    ensures |m.history| >= CAPACITY ==> Last(m.history)[0].buffptr in m.blocks
  {
    ReachedSound(m, trace);
    SoundCommit(m);
  }

  /** A write that fails to merge leaves one more block behind and changes nothing. */
  lemma WriteFails(m: Mem, trace: seq<MemStep>, k: Ptr, data: seq<byte>, copied: nat, tempOk: bool)
    requires Reached(m, trace) && copied <= |data| <= m.limit && k != NULL && k !in m.blocks
    requires 0 < m.pend.size && (!tempOk || |m.Pending()| + copied > m.limit)
    ensures WriteDev(m.Abs(false), data, copied, true, tempOk)
         == (Apply(m, Allocate(k, Padded(data, copied))).Abs(false), Error(ENOMEM))
  {
    PendingSize(m, trace);
    AllocateAbs(m, trace, k, Padded(data, copied));
  }

  lemma JoinsWrite(m: Mem, e: Mem, data: seq<byte>, copied: nat, tempOk: bool)
    requires 0 < |data| <= m.limit && copied <= |data| && Joins(m, e, data[..copied], copied == |data|)
    requires m.Pending() != [] ==> tempOk && |m.Pending()| + copied <= m.limit
    ensures if Padded(data, copied)[|data| - 1] == NEWLINE then
              && Allowed(e, Commit)
              && WriteDev(m.Abs(false), data, copied, true, tempOk) == (Apply(e, Commit).Abs(false), Count(copied))
            else
              WriteDev(m.Abs(false), data, copied, true, tempOk) == (e.Abs(false), Count(copied))
  {
  }

  /** A write that joins, and then commits if it ends in a newline, is the
      specified write. */
  lemma WriteJoins(m: Mem, trace: seq<MemStep>, k: Ptr, temp: Ptr, data: seq<byte>, copied: nat, tempOk: bool)
    requires Reached(m, trace) && 0 < |data| <= m.limit && copied <= |data| && k != NULL && k !in m.blocks
    requires 0 < m.pend.size ==>
               temp != NULL && temp !in m.blocks && temp != k && tempOk && |m.Pending()| + copied <= m.limit
    ensures var e := Joined(m, k, temp, data, copied);
            if Padded(data, copied)[|data| - 1] == NEWLINE then
              && Allowed(e, Commit)
              && WriteDev(m.Abs(false), data, copied, true, tempOk) == (Apply(e, Commit).Abs(false), Count(copied))
            else
              WriteDev(m.Abs(false), data, copied, true, tempOk) == (e.Abs(false), Count(copied))
  {
    var e := Joined(m, k, temp, data, copied);
    PendingSize(m, trace);
    if m.pend.size == 0 {
      JoinsFirst(m, trace, k, data, copied);
    } else {
      JoinsMore(m, trace, k, temp, data, copied);
    }
    JoinsWrite(m, e, data, copied, tempOk);
  }

  // ---- Looking up ------------------------------------------------------------------

  /** The sizes in the ring are the sizes of the committed entries. */
  lemma SizesAgree(m: Mem)
    requires m.Sound()
    ensures EntrySizes(Last(m.history)) == Sizes(Last(m.committed))
    ensures forall e :: e in Last(m.history) ==> e.buffptr != NULL
  {
    var live := Last(m.history);
    HoldsSize(m.blocks, live, Last(m.committed));
    forall k: nat | k < |live|
      ensures live[k].buffptr != NULL
    {
      HoldsAt(m.blocks, live, Last(m.committed), k);
    }
  }

  /** Skipping entries by their padded size list is skipping the entries. */
  lemma PaddedPrefix(live: seq<seq<byte>>, zeros: nat, command: nat)
    requires command <= |live| + zeros
    ensures var sizes := Sizes(live) + seq(zeros, _ => 0);
            Sum(sizes[..command]) == |Concat(live[..Min(command, |live|)])|
  {
    var padding: seq<nat> := seq(zeros, _ => 0);
    var sizes := Sizes(live) + padding;
    var k := Min(command, |live|);
    assert sizes[..command] == Sizes(live[..k]) + padding[..command - k];
    SumAppend(Sizes(live[..k]), padding[..command - k]);
    SumZero(padding[..command - k]);
    ConcatSize(live[..k]);
  }

  /** The walked sizes are those of the last ten entries, then zeros, and meet the
      conditions of the 32-bit scan. */
  lemma WalkMatches(m: Mem, pos: nat)
    requires m.Sound()
    ensures WalkSizes(m.history) == Sizes(Last(m.committed)) + seq(CAPACITY - |Last(m.committed)|, _ => 0)
    ensures Scannable(WalkSizes(m.history))
    ensures Locate(WalkSizes(m.history), pos) == Locate(Sizes(Last(m.committed)), pos)
  {
    SizesAgree(m);
    RotatedSizes(m.history, pos);
    LookupConditions(m.Abs(false));
  }

  /** The 32-bit walk over the slots finds what the specification finds. */
  lemma LookupMatches(m: Mem, trace: seq<MemStep>, pos: nat)
    requires Reached(m, trace)
    ensures Scan(WalkSizes(m.history), 0, 0, 0, pos) == Locate(Sizes(Last(m.committed)), pos)
  {
    ReachedSound(m, trace);
    WalkMatches(m, pos);
    ScanIsLocate(WalkSizes(m.history), pos);
  }

  /** The k-th live ring entry points to a block with the k-th live byte string. */
  lemma EntryHolds(m: Mem, trace: seq<MemStep>, k: nat)
    requires Reached(m, trace) && k < |Last(m.committed)|
    ensures |m.history| == |m.committed|
    ensures var e := Last(m.history)[k];
            e.buffptr in m.blocks && e.size == |Last(m.committed)[k]|
            && m.blocks[e.buffptr] == Last(m.committed)[k]
  {
    ReachedSound(m, trace);
    HoldsAt(m.blocks, Last(m.history), Last(m.committed), k);
  }

  /** A ring entry and offset that are right for a position. */
  ghost predicate HitBy(m: Mem, pos: nat, e: Entry, inner: nat) {
    var hit := Locate(Sizes(Last(m.committed)), pos);
    && hit.At? && hit.inner == inner < e.size
    && hit.index < |Last(m.committed)|
    && e.buffptr in m.blocks && e.size == |m.blocks[e.buffptr]|
    && m.blocks[e.buffptr] == Last(m.committed)[hit.index]
  }

  /** The live entry the lookup stops at is such an entry. */
  lemma EntryFound(m: Mem, trace: seq<MemStep>, pos: nat)
    requires Reached(m, trace) && Locate(Sizes(Last(m.committed)), pos).At?
    ensures var hit := Locate(Sizes(Last(m.committed)), pos);
            hit.index < |Last(m.history)| && HitBy(m, pos, Last(m.history)[hit.index], hit.inner)
  {
    var hit := Locate(Sizes(Last(m.committed)), pos);
    LocateIff(Sizes(Last(m.committed)), pos, hit.index, hit.inner);
    EntryHolds(m, trace, hit.index);
  }

  /** Reading from it is the specified read. */
  lemma ReadHit(m: Mem, pos: nat, e: Entry, inner: nat, count: nat, fault: bool)
    requires HitBy(m, pos, e, inner)
    ensures var n := Min(e.size - inner, count);
            ReadDev(m.Abs(false), pos, count, fault)
              == if fault && 0 < n then Error(EFAULT) else Data(m.blocks[e.buffptr][inner..inner + n])
  {
  }

  /** Seeking by the walked sizes is the specified seek, and in 32 bits nothing is
      lost from it. */
  lemma FposMatches(m: Mem, trace: seq<MemStep>, command: nat, offset: nat)
    requires Reached(m, trace) && command < 10 && offset < 16
    ensures Sum(WalkSizes(m.history)[..command]) + offset == SeekPos(m.Abs(false), command, offset) < TWO32
  {
    ReachedSound(m, trace);
    var live := Last(m.committed);
    WalkMatches(m, 0);
    PaddedPrefix(live, CAPACITY - |live|, command);
    SumPrefix(WalkSizes(m.history), command);
  }

  /** In every state the driver can reach, the sizes it walks over are those of the
      last ten entries, add up to the readable content, and meet the condition under
      which its 32-bit lookup is exact and inverse to its 32-bit positions. */
  lemma WalkFacts(m: Mem, trace: seq<MemStep>)
    requires Reached(m, trace)
    ensures var walk := WalkSizes(m.history);
            && walk == Sizes(Last(m.committed)) + seq(CAPACITY - |Last(m.committed)|, _ => 0)
            && Sum(walk) == |m.Abs(false).Content()|
            && Scannable(walk)
  {
    ReachedSound(m, trace);
    WalkMatches(m, 0);
    SizesAgree(m);
    RotatedSizes(m.history, 0);
    ConcatSize(Last(m.committed));
  }

  /** Looking up positions of live bytes is not disturbed by the padding. */
  lemma PaddedUndo(walk: seq<nat>, live: seq<seq<byte>>, k: nat, i: nat)
    requires Scannable(walk) && |live| <= CAPACITY && walk == Sizes(live) + seq(CAPACITY - |live|, _ => 0)
    requires k < |live| && i < |live[k]|
    ensures Scan(walk, 0, 0, 0, Position(walk, k, i)) == At(k, i)
  {
    assert walk[k] == |live[k]|;
    ScanUndoesPosition(walk, k, i);
  }

  /** So looking up the 32-bit position of byte i of the k-th live entry finds just that. */
  lemma FindUndoesFpos(m: Mem, trace: seq<MemStep>, k: nat, i: nat)
    requires Reached(m, trace) && k < |Last(m.committed)| && i < |Last(m.committed)[k]|
    ensures Scan(WalkSizes(m.history), 0, 0, 0, Position(WalkSizes(m.history), k, i)) == At(k, i)
  {
    WalkFacts(m, trace);
    PaddedUndo(WalkSizes(m.history), Last(m.committed), k, i);
  }

  /** And the 32-bit position of what a lookup finds is the position looked up. */
  lemma FposUndoesFind(m: Mem, trace: seq<MemStep>, pos: nat)
    requires Reached(m, trace) && pos < |m.Abs(false).Content()|
    ensures var hit := Scan(WalkSizes(m.history), 0, 0, 0, pos);
            && hit.At? && hit.inner < WalkSizes(m.history)[hit.index]
            && Position(WalkSizes(m.history), hit.index, hit.inner) == pos
  {
    WalkFacts(m, trace);
    PositionUndoesScan(WalkSizes(m.history), pos);
  }

  /** The sum over the slots in physical order is the size of the content. */
  lemma PhysicalMatches(m: Mem, trace: seq<MemStep>)
    requires Reached(m, trace)
    ensures PhysicalSize(Slots(m.history)) == |m.Abs(false).Content()|
  {
    ReachedSound(m, trace);
    SizesAgree(m);
    PhysicalIsLogical(m.history);
    ConcatSize(Last(m.committed));
  }

  // ---- Counting --------------------------------------------------------------------

  /** Live blocks: one per ring entry, one if something is pending, and the leaks. */
  lemma MemoryCount(m: Mem, trace: seq<MemStep>)
    requires Reached(m, trace)
    ensures var d := m.Abs(false);
            |m.blocks| == Min(|d.committed|, CAPACITY) + (if d.pending != [] || d.stale then 1 else 0) + d.leaks
  {
    ReachedSound(m, trace);
    PendingSize(m, trace);
    BlockCount(m.blocks, Last(m.history), m.pend, m.leaked);
  }

  /** No two owners share a block: a live ring entry has a live block of its own, which
      is neither the pending entry's, nor lost, nor any other ring entry's. */
  lemma NoSharing(m: Mem, trace: seq<MemStep>, k: nat)
    requires Reached(m, trace) && k < |Last(m.history)|
    ensures var live := Last(m.history);
            && live[k].buffptr in m.blocks && live[k].buffptr != NULL
            && m.pend.buffptr != live[k].buffptr && live[k].buffptr !in m.leaked
            && forall j :: 0 <= j < |live| && j != k ==> live[j].buffptr != live[k].buffptr
  {
    ReachedSound(m, trace);
    var live := Last(m.history);
    PtrsMember(live, k);
    assert live[k].buffptr in m.blocks.Keys;
    forall j: nat | j < |live| && j != k
      ensures live[j].buffptr != live[k].buffptr
    {
      if j < k { PtrsDistinct(live, j, k); } else { PtrsDistinct(live, k, j); }
    }
  }

  /** The pending entry's block is live and not lost either. */
  lemma PendingAlone(m: Mem, trace: seq<MemStep>)
    requires Reached(m, trace) && m.pend.buffptr != NULL
    ensures m.pend.buffptr in m.blocks && m.pend.buffptr !in m.leaked
  {
    ReachedSound(m, trace);
    assert m.pend.buffptr in m.blocks.Keys;
  }
}
