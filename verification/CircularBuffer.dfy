/** The ten-slot ring of (pointer, size) entries. */
module CircularBuffer {
  import opened Bytes
  import opened Pointers
  import opened Positions

  const CAPACITY: nat := 10

  /** Slot numbers wrap around at the capacity. */
  function Wrap(i: nat): (r: nat)
    ensures r < CAPACITY
    ensures i < 20 ==> r == if i < 10 then i else i - 10
  {
    i % 10
  }

  datatype Entry = Entry(buffptr: Ptr, size: nat)

  const EMPTY: Entry := Entry(NULL, 0)

  // ---- What the slots hold after a history of additions --------------------

  /** The last ten elements, or all of them. */
  function Last<T>(h: seq<T>): (r: seq<T>)
    ensures |r| == Min(|h|, CAPACITY)
  {
    if |h| <= CAPACITY then h else h[|h| - CAPACITY..]
  }

  /** One more element pushes out the oldest of ten. */
  lemma LastSnoc<T>(h: seq<T>, x: T)
    ensures Last(h + [x]) == (if |h| < CAPACITY then h else Last(h)[1..]) + [x]
  {
  }

  /** Slot contents after the additions in h, starting from a zeroed ring. */
  ghost function Slots(h: seq<Entry>): (r: seq<Entry>)
    ensures |r| == CAPACITY
  {
    if h == [] then seq(CAPACITY, _ => EMPTY)
    else Slots(h[..|h| - 1])[Wrap(|h| - 1) := h[|h| - 1]]
  }

  ghost function OutOffs(n: nat): (r: nat)
    ensures r < CAPACITY
  {
    if n < CAPACITY then 0 else Wrap(n)
  }

  /** Closed form: each of the last ten additions is still where it was put. */
  lemma {:induction false} SlotHolds(h: seq<Entry>, j: nat)
    requires j < |h| <= j + CAPACITY
    ensures Slots(h)[Wrap(j)] == h[j]
  {
    var front := h[..|h| - 1];
    if j < |h| - 1 {
      SlotHolds(front, j);
      assert front[j] == h[j];
      WrapDiffers(j, |h| - 1);
    }
  }

  lemma WrapDiffers(i: nat, j: nat)
    requires i < j < i + CAPACITY
    ensures Wrap(i) != Wrap(j)
  {
  }

  /** Slots that were never written are still zero. */
  lemma {:induction false} SlotUnwritten(h: seq<Entry>, i: nat)
    requires |h| <= i < CAPACITY
    ensures Slots(h)[i] == EMPTY
  {
    if h != [] {
      SlotUnwritten(h[..|h| - 1], i);
    }
  }

  /** The ten slots in the order the driver walks them, oldest first. */
  ghost function Rotated(slots: seq<Entry>, out: nat): (r: seq<Entry>)
    requires |slots| == CAPACITY && out < CAPACITY
    ensures |r| == CAPACITY
  {
    seq(CAPACITY, k requires 0 <= k < CAPACITY => slots[Wrap(out + k)])
  }

  ghost function EntrySizes(es: seq<Entry>): (r: seq<nat>)
    ensures |r| == |es|
  {
    seq(|es|, i requires 0 <= i < |es| => es[i].size)
  }

  /** The sizes the driver walks over after these additions. */
  ghost function WalkSizes(h: seq<Entry>): (r: seq<nat>)
    ensures |r| == CAPACITY
  {
    EntrySizes(Rotated(Slots(h), OutOffs(|h|)))
  }

  /** Walking from the read cursor meets the last ten additions in order, and
      after them only zeroed slots. */
  lemma RotatedIsLast(h: seq<Entry>)
    ensures Rotated(Slots(h), OutOffs(|h|))
         == Last(h) + seq(CAPACITY - |Last(h)|, _ => EMPTY)
  {
    var r := Rotated(Slots(h), OutOffs(|h|));
    forall k: nat | k < CAPACITY
      ensures r[k] == if k < |Last(h)| then Last(h)[k] else EMPTY
    {
      WalkedSlot(h, k);
    }
  }

  /** The k-th slot of the walk. */
  lemma WalkedSlot(h: seq<Entry>, k: nat)
    requires k < CAPACITY
    ensures Slots(h)[Wrap(OutOffs(|h|) + k)]
         == if k < |Last(h)| then Last(h)[k] else EMPTY
  {
    if |h| < CAPACITY {
      if k < |h| { SlotHolds(h, k); } else { SlotUnwritten(h, k); }
    } else {
      SlotHolds(h, |h| - CAPACITY + k);
      SameSlot(|h|, k);
    }
  }

  lemma SameSlot(n: nat, k: nat)
    requires CAPACITY <= n
    ensures Wrap(Wrap(n) + k) == Wrap(n - CAPACITY + k)
  {
  }

  /** The cursors after one more addition. */
  lemma NextCursor(n: nat)
    ensures Wrap(n + 1) == Wrap(Wrap(n) + 1)
    ensures CAPACITY <= n ==> Wrap(n - CAPACITY) == Wrap(n)
    ensures n < CAPACITY ==> (Wrap(n + 1) == 0 <==> n + 1 == CAPACITY)
  {
  }

  /** Sizes seen by the walk: those of the live entries, then zeros. */
  lemma RotatedSizes(h: seq<Entry>, off: nat)
    ensures var sizes := WalkSizes(h);
            && sizes == EntrySizes(Last(h)) + seq(CAPACITY - |Last(h)|, _ => 0)
            && Sum(sizes) == Sum(EntrySizes(Last(h)))
            && Locate(sizes, off) == Locate(EntrySizes(Last(h)), off)
  {
    RotatedIsLast(h);
    var padding: seq<nat> := seq(CAPACITY - |Last(h)|, _ => 0);
    SumAppend(EntrySizes(Last(h)), padding);
    SumZero(padding);
    LocatePadding(EntrySizes(Last(h)), padding, off);
  }

  /** The sum over the slots in physical order that skips null pointers. */
  ghost function PhysicalSize(slots: seq<Entry>): nat {
    if slots == [] then 0
    else (if slots[0].buffptr != NULL then slots[0].size else 0) + PhysicalSize(slots[1..])
  }

  lemma {:induction false} PhysicalSum(slots: seq<Entry>)
    requires forall i :: 0 <= i < |slots| && slots[i].buffptr == NULL ==> slots[i].size == 0
    ensures PhysicalSize(slots) == Sum(EntrySizes(slots))
  {
    if slots != [] {
      PhysicalSum(slots[1..]);
      assert EntrySizes(slots)[1..] == EntrySizes(slots[1..]);
    }
  }

  lemma {:induction false} PhysicalSnoc(slots: seq<Entry>, i: nat)
    requires i < |slots|
    ensures PhysicalSize(slots[..i + 1])
         == PhysicalSize(slots[..i]) + (if slots[i].buffptr != NULL then slots[i].size else 0)
  {
    if i == 0 {
      assert slots[..1] == [slots[0]];
      assert PhysicalSize(slots[..0]) == 0 == PhysicalSize([]);
    } else {
      assert slots[1..][..i] == slots[..i + 1][1..];
      assert slots[1..][..i - 1] == slots[..i][1..];
      PhysicalSnoc(slots[1..], i - 1);
    }
  }

  /** Every slot is zero or holds one of the last ten additions. */
  lemma SlotIsLive(h: seq<Entry>, i: nat)
    requires i < CAPACITY
    ensures Slots(h)[i] == EMPTY || Slots(h)[i] in Last(h)
  {
    var out := OutOffs(|h|);
    var k := if out <= i then i - out else i + 10 - out;
    assert Wrap(out + k) == i;
    WalkedSlot(h, k);
  }

  /** The physical-order sum is the total size of the last ten additions, for
      every rotation and every fill level. */
  lemma PhysicalIsLogical(h: seq<Entry>)
    requires forall e :: e in Last(h) && e.buffptr == NULL ==> e.size == 0
    ensures PhysicalSize(Slots(h)) == Sum(EntrySizes(Last(h)))
  {
    var s, out := Slots(h), OutOffs(|h|);
    forall i | 0 <= i < CAPACITY && s[i].buffptr == NULL
      ensures s[i].size == 0
    {
      SlotIsLive(h, i);
    }
    PhysicalSum(s);
    RotatedSum(s, out);
    RotatedSizes(h, 0);
  }

  lemma RotatedSum(slots: seq<Entry>, out: nat)
    requires |slots| == CAPACITY && out < CAPACITY
    ensures Sum(EntrySizes(Rotated(slots, out))) == Sum(EntrySizes(slots))
  {
    var sizes := EntrySizes(slots);
    assert sizes == sizes[..out] + sizes[out..];
    SumAppend(sizes[..out], sizes[out..]);
    SumAppend(sizes[out..], sizes[..out]);
    var rotated := EntrySizes(Rotated(slots, out));
    forall k | 0 <= k < CAPACITY
      ensures rotated[k] == (sizes[out..] + sizes[..out])[k]
    {
      assert Wrap(out + k) == if out + k < 10 then out + k else out + k - 10;
    }
    assert rotated == sizes[out..] + sizes[..out];
  }

  // ---- The ring itself -----------------------------------------------------

  class Ring {
    const entry: array<Entry>
    var inOffs: nat
    var outOffs: nat
    var full: bool

    /** Every entry ever added, in order. */
    ghost var history: seq<Entry>

    ghost predicate Valid()
      reads this, entry
    {
      && entry.Length == CAPACITY
      && entry[..] == Slots(history)
      && inOffs == Wrap(|history|)
      && outOffs == OutOffs(|history|)
      && full == (|history| >= CAPACITY)
    }

    constructor ()
      ensures Valid() && history == [] && fresh(entry)
    {
      entry := new Entry[CAPACITY](_ => EMPTY);
      inOffs, outOffs, full := 0, 0, false;
      history := [];
      new;
      assert entry[..] == seq(CAPACITY, _ => EMPTY);
    }

    /** The k-th size of the walk is in the slot k places after the read cursor. */
    lemma WalkedSize(k: nat, slot: nat)
      requires Valid() && k < CAPACITY && slot == Wrap(outOffs + k)
      ensures WalkSizes(history)[k] == entry[slot].size
    {
    }

    lemma LiveSlot(k: nat, slot: nat)
      requires Valid() && k < CAPACITY && slot == Wrap(outOffs + k)
      ensures k < |Last(history)| ==> entry[slot] == Last(history)[k]
    {
      WalkedSlot(history, k);
    }

    /** Adds an entry at the write cursor; returns the pointer it overwrote when
        the ring was full, which is the one added exactly ten additions ago. */
    method AddEntry(e: Entry) returns (evicted: Ptr)
      requires Valid()
      modifies this, entry
      ensures Valid() && history == old(history) + [e]
      ensures evicted == if |old(history)| >= CAPACITY
                         then old(history)[|old(history)| - CAPACITY].buffptr else NULL
    {
      evicted := NULL;
      var saved := entry[inOffs].buffptr;
      NextCursor(|history|);
      if full { SlotHolds(history, |history| - CAPACITY); }
      entry[inOffs] := e;
      inOffs := Wrap(inOffs + 1);
      if full {
        evicted := saved;
        outOffs := Wrap(outOffs + 1);
      }
      full := inOffs == outOffs;
      history := history + [e];
      assert history[..|history| - 1] == old(history);
    }

    /** The driver's lookup: the slot number and offset, or nothing. */
    method FindEntryOffsetForFpos(charOffset: nat) returns (found: bool, slot: nat, inner: nat)
      requires Valid()
      ensures found == Scan(WalkSizes(history), 0, 0, 0, charOffset).At?
      ensures found ==> var At(k, i) := Scan(WalkSizes(history), 0, 0, 0, charOffset);
                        && inner == i && slot == Wrap(outOffs + k)
                        && (k < |Last(history)| ==> entry[slot] == Last(history)[k])
    {
      found, slot, inner := false, 0, 0;
      var pos, posStart := 0, 0;
      var i := outOffs;
      while i < outOffs + CAPACITY
        invariant outOffs <= i <= outOffs + CAPACITY
        invariant Scan(WalkSizes(history), 0, 0, 0, charOffset)
               == Scan(WalkSizes(history), i - outOffs, pos, posStart, charOffset)
      {
        var slotNow := Wrap(i);
        WalkedSize(i - outOffs, slotNow);
        LiveSlot(i - outOffs, slotNow);
        pos := AddInt32(pos, entry[slotNow].size);
        if pos == 0 { return; }
        if charOffset < AsSize(pos) {
          return true, slotNow, SubSize(charOffset, posStart);
        }
        posStart := AddInt32(posStart, entry[slotNow].size);
        i := i + 1;
      }
    }

    /** File position of a command and an offset, in the driver's 32 bits. */
    method GetFpos(buffPos: nat, offset: nat) returns (r: nat)
      requires Valid() && buffPos < TWO32 && offset < TWO32
      ensures r == Position(WalkSizes(history), Min(buffPos, CAPACITY), offset)
           == Uint32(Sum(WalkSizes(history)[..Min(buffPos, CAPACITY)]) + offset)
    {
      var bytePos, posCount := 0, 0;
      var i := outOffs;
      ghost var sizes := WalkSizes(history);
      assert sizes[..0] == [];
      while i < outOffs + CAPACITY && posCount != buffPos
        invariant outOffs <= i <= outOffs + CAPACITY && posCount == i - outOffs <= buffPos
        invariant Uint32(bytePos) == Uint32(Sum(sizes[..posCount]))
        decreases outOffs + CAPACITY - i
      {
        var slotNow := Wrap(i);
        WalkedSize(posCount, slotNow);
        SumSnoc(sizes, posCount);
        AddInt32Mod(bytePos, entry[slotNow].size);
        Uint32Add(bytePos, Sum(sizes[..posCount]), entry[slotNow].size);
        bytePos := AddInt32(bytePos, entry[slotNow].size);
        posCount := posCount + 1;
        i := i + 1;
      }
      Uint32Add(bytePos, Sum(sizes[..posCount]), offset);
      r := Uint32(bytePos + offset);
    }

    /** The size computed by walking the slots in physical order. */
    method TotalSize() returns (size: nat)
      requires Valid()
      ensures size == PhysicalSize(Slots(history))
    {
      size := 0;
      var index := 0;
      while index < CAPACITY
        invariant 0 <= index <= CAPACITY
        invariant size == PhysicalSize(entry[..][..index])
      {
        PhysicalSnoc(entry[..], index);
        if entry[index].buffptr != NULL {
          size := size + entry[index].size;
        }
        index := index + 1;
      }
      assert entry[..][..CAPACITY] == entry[..];
    }
  }
}
