/** The driver: ring, pending entry, kernel memory and lock, updated in place,
    and proved to take exactly the steps of `DeviceSpec`. */
module CharDevice {
  import opened Bytes
  import opened Positions
  import opened CircularBuffer
  import opened Pointers
  import opened KernelHeap
  import opened DeviceSpec
  import opened DeviceMemory

  class Device {
    const ring: Ring
    const heap: Heap
    var bufferEntry: Entry
    var locked: bool

    /** The memory as a value, and the steps that led to it. */
    ghost var mem: Mem
    ghost var trace: seq<MemStep>

    ghost predicate Valid()
      reads this, ring, ring.entry, heap
    {
      && ring.Valid()
      && Reached(mem, trace)
      && mem.limit == heap.limit
      && mem.blocks == heap.blocks
      && mem.history == ring.history
      && mem.pend == bufferEntry
    }

    /** The state as the specification sees it. */
    ghost function Abs(): Dev
      reads this
    {
      mem.Abs(locked)
    }

    constructor (limit: nat)
      requires 10 * limit < TWO31
      ensures Valid() && Abs() == Init(limit).dev
      ensures fresh(ring) && fresh(ring.entry) && fresh(heap)
    {
      ring := new Ring();
      heap := new Heap(limit);
      bufferEntry := EMPTY;
      locked := false;
      mem, trace := Mem(limit, map[], [], EMPTY, [], {}), [];
    }

    // ---- write ----------------------------------------------------------------

    /** kmalloc and copy_from_user: a block of its own for the new bytes. */
    method Receive(data: seq<byte>, copied: nat, ok: bool) returns (kBuf: Ptr)
      requires Valid() && copied <= |data|
      modifies this`mem, this`trace, heap
      ensures Valid()
      ensures kBuf == NULL <==> !ok || |data| > mem.limit
      ensures kBuf == NULL ==> mem == old(mem)
      ensures kBuf != NULL ==> kBuf !in old(mem).blocks
      ensures kBuf != NULL ==> mem == Apply(old(mem), Allocate(kBuf, Padded(data, copied)))
    {
      kBuf := heap.KmallocFrom(Padded(data, copied), ok);
      if kBuf != NULL {
        ghost var step := Allocate(kBuf, Padded(data, copied));
        Extend(mem, trace, step);
        mem, trace := Apply(mem, step), trace + [step];
      }
    }

    /** The new bytes become the pending entry, or are merged with it into one
        block, both old ones being freed. Without memory for that block nothing
        changes, and kBuf is left behind. */
    method Join(kBuf: Ptr, n: nat, tempOk: bool) returns (ok: bool)
      requires Valid() && kBuf in mem.leaked
      requires kBuf in mem.blocks && n <= |mem.blocks[kBuf]| <= mem.limit
      modifies this`bufferEntry, this`mem, this`trace, heap
      ensures Valid()
      ensures ok == (old(mem).pend.size == 0 || (tempOk && |old(mem).Pending()| + n <= mem.limit))
      ensures !ok ==> mem == old(mem)
      ensures ok && old(mem).pend.size == 0 ==> mem == Apply(old(mem), Take(kBuf, n))
      ensures ok && old(mem).pend.size > 0 ==>
                && bufferEntry.buffptr != NULL && bufferEntry.buffptr !in old(mem).blocks
                && mem == Apply(old(mem), Merge(kBuf, bufferEntry.buffptr,
                                                old(mem).Pending() + old(mem).blocks[kBuf][..n]))
    {
      var Entry(was, size) := bufferEntry;
      MergeReady(mem, trace, kBuf);
      ghost var step;
      if size == 0 {
        step := Take(kBuf, n);
        bufferEntry := Entry(kBuf, n);
      } else {
        var temp := heap.Join(was, size, kBuf, n, tempOk);
        if temp == NULL {
          return false;
        }
        step := Merge(kBuf, temp, mem.Pending() + mem.blocks[kBuf][..n]);
        bufferEntry := Entry(temp, size + n);
      }
      Extend(mem, trace, step);
      mem, trace := Apply(mem, step), trace + [step];
      ok := true;
    }

    /** Adds the pending entry to the ring and frees what it pushed out. */
    method AddAndFree()
      requires ring.Valid() && NULL !in heap.blocks
      requires |ring.history| >= CAPACITY ==> Last(ring.history)[0].buffptr in heap.blocks
      modifies ring, ring.entry, heap
      ensures ring.Valid() && ring.history == old(ring.history) + [bufferEntry]
      ensures heap.blocks == if |old(ring.history)| < CAPACITY then old(heap.blocks)
                             else old(heap.blocks) - {old(Last(ring.history)[0].buffptr)}
    {
      var evicted := ring.AddEntry(bufferEntry);
      if evicted != NULL {
        heap.Kfree(evicted);
      }
    }

    /** The pending entry becomes the newest ring entry and is cleared. */
    method CommitPending()
      requires Valid() && Allowed(mem, Commit)
      modifies this`bufferEntry, this`mem, this`trace, ring, ring.entry, heap
      ensures Valid() && mem == Apply(old(mem), Commit)
    {
      CommitReady(mem, trace);
      Extend(mem, trace, Commit);
      AddAndFree();
      bufferEntry := EMPTY;
      mem, trace := Apply(mem, Commit), trace + [Commit];
    }

    /** The end of a write that joined its bytes: commit on a newline, and unlock. */
    method FinishWrite(hasNewline: bool)
      requires Valid() && (hasNewline ==> Allowed(mem, Commit))
      modifies this, ring, ring.entry, heap
      ensures Valid() && !locked
      ensures mem == if hasNewline then Apply(old(mem), Commit) else old(mem)
    {
      if hasNewline {
        CommitPending();
      }
      locked := false;
    }

    /** The body of aesd_write, lock held on entry and released on every exit. */
    method WriteHeld(data: seq<byte>, copied: nat, bufOk: bool, tempOk: bool) returns (r: Outcome)
      requires Valid() && locked && 0 < |data| && copied <= |data|
      modifies this, ring, ring.entry, heap
      ensures Valid() && !locked
      ensures (mem.Abs(false), r) == WriteDev(old(mem).Abs(false), data, copied, bufOk, tempOk)
    {
      var kBuf := Receive(data, copied, bufOk);
      if kBuf == NULL {
        locked := false;
        return Error(ENOMEM);
      }
      AllocateAbs(old(mem), old(trace), kBuf, Padded(data, copied));
      var hasNewline := heap.blocks[kBuf][|data| - 1] == NEWLINE;
      var ok := Join(kBuf, copied, tempOk);
      if !ok {
        WriteFails(old(mem), old(trace), kBuf, data, copied, tempOk);
        locked := false;
        return Error(ENOMEM);
      }
      WriteJoins(old(mem), old(trace), kBuf, bufferEntry.buffptr, data, copied, tempOk);
      FinishWrite(hasNewline);
      return Count(copied);
    }

    /** aesd_write. */
    method Write(pos: nat, data: seq<byte>, copied: nat, bufOk: bool, tempOk: bool, interrupted: bool)
        returns (r: Outcome, newPos: nat)
      requires Valid() && 0 < |data| && copied <= |data|
      modifies this, ring, ring.entry, heap
      ensures Valid()
      ensures (Abs(), r) == WriteCall(old(Abs()), data, copied, bufOk, tempOk, interrupted)
      ensures newPos == pos + if r.Count? then r.n else 0
    {
      newPos := pos;
      if interrupted { return Error(EINTR), pos; }
      if locked { return Hung, pos; }
      locked := true;
      r := WriteHeld(data, copied, bufOk, tempOk);
      if r.Count? {
        newPos := pos + r.n;
      }
    }

    // ---- read -------------------------------------------------------------------

    /** The ring entry at a position: its block holds the entry that position is in. */
    method Find(pos: nat) returns (found: bool, e: Entry, inner: nat)
      requires Valid()
      ensures found == Locate(Sizes(Last(mem.committed)), pos).At?
      ensures found ==> HitBy(mem, pos, e, inner)
    {
      var slot;
      LookupMatches(mem, trace, pos);
      found, slot, inner := ring.FindEntryOffsetForFpos(pos);
      e := EMPTY;
      if found {
        EntryFound(mem, trace, pos);
        e := ring.entry[slot];
      }
    }

    /** The body of aesd_read, lock held on entry and released on every exit. */
    method ReadHeld(pos: nat, count: nat, fault: bool) returns (r: Outcome)
      requires Valid() && locked
      modifies this`locked
      ensures !locked && r == ReadDev(mem.Abs(false), pos, count, fault)
    {
      var found, e, inner := Find(pos);
      if !found {
        locked := false;
        return Data([]);
      }
      ReadHit(mem, pos, e, inner, count, fault);
      var toCopy := Min(e.size - inner, count);
      if fault && 0 < toCopy {
        locked := false;
        return Error(EFAULT);
      }
      r := Data(heap.blocks[e.buffptr][inner..inner + toCopy]);
      locked := false;
    }

    /** aesd_read: at most to the end of the entry at the position. */
    method Read(pos: nat, count: nat, fault: bool, interrupted: bool) returns (r: Outcome, newPos: nat)
      requires Valid()
      modifies this`locked
      ensures Valid() && Abs() == old(Abs())
      ensures r == ReadCall(Abs(), pos, count, fault, interrupted)
      ensures newPos == pos + if r.Data? then |r.bytes| else 0
    {
      newPos := pos;
      if interrupted { return Error(EINTR), pos; }
      if locked { return Hung, pos; }
      locked := true;
      r := ReadHeld(pos, count, fault);
      if r.Data? {
        newPos := pos + |r.bytes|;
      }
    }

    // ---- llseek -------------------------------------------------------------------

    /** aesd_llseek. */
    method Llseek(pos: nat, off: int, whence: Whence, interrupted: bool) returns (r: Outcome, newPos: nat)
      requires Valid()
      modifies this`locked
      ensures Valid() && Abs() == old(Abs())
      ensures (r, newPos) == LlseekCall(Abs(), pos, off, whence, interrupted)
    {
      if interrupted { return Error(EINTR), pos; }
      if locked { return Hung, pos; }
      locked := true;
      var size := ring.TotalSize();
      PhysicalMatches(mem, trace);
      var result := FixedSizeLlseek(pos, off, whence, size);
      locked := false;
      return result.0, result.1;
    }

    // ---- ioctl --------------------------------------------------------------------

    /** The position the ring computes in 32 bits is the specified one. */
    method GetFpos(command: nat, offset: nat) returns (pos: nat)
      requires Valid() && command < 10 && offset < 16
      ensures pos == SeekPos(mem.Abs(false), command, offset)
    {
      assert Min(command, CAPACITY) == command;
      pos := ring.GetFpos(command, offset);
      FposMatches(mem, trace, command, offset);
    }

    /** aesd_adjust_file_offset: the refusal leaves without unlocking. */
    method AdjustFileOffset(pos: nat, word: bv32) returns (r: Outcome, newPos: nat)
      requires Valid() && !locked
      modifies this`locked
      ensures Valid()
      ensures locked <==> DecodeCommand(word) >= 10
      ensures (r, newPos) == if DecodeCommand(word) >= 10 then (Error(EINVAL), pos)
                             else (Count(0), SeekPos(old(Abs()), DecodeCommand(word) as nat, DecodeOffset(word) as nat))
    {
      locked := true;
      if DecodeCommand(word) >= 10 {
        return Error(EINVAL), pos;
      }
      DecodeSmall(word);
      newPos := GetFpos(DecodeCommand(word) as nat, DecodeOffset(word) as nat);
      locked := false;
      r := Count(0);
    }

    /** aesd_unlocked_ioctl: one byte of the argument is copied. */
    method Ioctl(pos: nat, seekto: bool, first: bv8, garbage: bv32, fault: bool, interrupted: bool)
        returns (r: Outcome, newPos: nat)
      requires Valid()
      modifies this`locked
      ensures Valid()
      ensures (Abs(), r, newPos) == IoctlCall(old(Abs()), pos, seekto, first, garbage, fault, interrupted)
    {
      if !seekto { return Error(EINVAL), pos; }
      if fault { return Error(EFAULT), pos; }
      if interrupted { return Error(ERESTARTSYS), pos; }
      if locked { return Hung, pos; }
      r, newPos := AdjustFileOffset(pos, ReceivedWord(first, garbage));
    }

    lemma DeviceInv()
      requires Valid()
      ensures Abs().Inv()
    {
      ReachedSound(mem, trace);
    }

    /** Live blocks, counted: ring entries, the pending entry, and the leaks. */
    lemma LiveBlocks()
      requires Valid()
      ensures |heap.blocks| == Min(|Abs().committed|, CAPACITY)
                               + (if Abs().pending != [] || Abs().stale then 1 else 0) + Abs().leaks
    {
      MemoryCount(mem, trace);
    }
  }
}
