/** Who owns which block: the ring, the pending entry, or nobody. */
module Ownership {
  import opened Bytes
  import opened CircularBuffer
  import opened Pointers

  type Blocks = map<Ptr, seq<byte>>

  ghost function Ptrs(es: seq<Entry>): set<Ptr> {
    if es == [] then {} else {es[0].buffptr} + Ptrs(es[1..])
  }

  ghost function PtrOf(e: Entry): set<Ptr> {
    if e.buffptr == NULL then {} else {e.buffptr}
  }

  /** Every live block has exactly one owner: a ring entry, the pending entry, or
      the set of blocks nothing in the device points to. */
  ghost predicate Owned(blocks: Blocks, live: seq<Entry>, pend: Entry, stray: set<Ptr>) {
    && NULL !in blocks
    && |Ptrs(live)| == |live|
    && Ptrs(live) !! PtrOf(pend) !! stray
    && blocks.Keys == Ptrs(live) + PtrOf(pend) + stray
  }

  /** The entries hold these byte strings. */
  ghost predicate Holds(blocks: Blocks, live: seq<Entry>, parts: seq<seq<byte>>) {
    if live == [] || parts == [] then live == [] && parts == []
    else
      && live[0].buffptr in blocks
      && blocks[live[0].buffptr] == parts[0]
      && live[0].size == |parts[0]|
      && Holds(blocks, live[1..], parts[1..])
  }

  // ---- Pointer sets ------------------------------------------------------------

  lemma {:induction false} PtrsMember(es: seq<Entry>, k: nat)
    requires k < |es|
    ensures es[k].buffptr in Ptrs(es)
  {
    if k != 0 {
      PtrsMember(es[1..], k - 1);
    }
  }

  lemma {:induction false} PtrsSnoc(es: seq<Entry>, e: Entry)
    ensures Ptrs(es + [e]) == Ptrs(es) + {e.buffptr}
  {
    if es == [] {
      assert ([] + [e])[1..] == [];
    } else {
      PtrsSnoc(es[1..], e);
      assert (es + [e])[1..] == es[1..] + [e];
    }
  }

  lemma {:induction false} PtrsBound(es: seq<Entry>)
    ensures |Ptrs(es)| <= |es|
  {
    if es != [] {
      PtrsBound(es[1..]);
    }
  }

  /** Without repetition, the rest does not contain the first. */
  lemma PtrsTail(es: seq<Entry>)
    requires es != [] && |Ptrs(es)| == |es|
    ensures es[0].buffptr !in Ptrs(es[1..]) && |Ptrs(es[1..])| == |es[1..]|
    ensures Ptrs(es[1..]) == Ptrs(es) - {es[0].buffptr}
  {
    PtrsBound(es[1..]);
    var rest := Ptrs(es[1..]);
    assert es[0].buffptr in rest ==> Ptrs(es) == rest;
  }

  /** The owners in the ring are pairwise different. */
  lemma {:induction false} PtrsDistinct(es: seq<Entry>, j: nat, k: nat)
    requires |Ptrs(es)| == |es| && j < k < |es|
    ensures es[j].buffptr != es[k].buffptr
  {
    PtrsTail(es);
    if j == 0 {
      PtrsMember(es[1..], k - 1);
    } else {
      PtrsDistinct(es[1..], j - 1, k - 1);
    }
  }

  // ---- Stored bytes --------------------------------------------------------------

  lemma {:induction false} HoldsAt(blocks: Blocks, live: seq<Entry>, parts: seq<seq<byte>>, k: nat)
    requires Holds(blocks, live, parts) && k < |live|
    ensures |live| == |parts| && live[k].buffptr in blocks
    ensures blocks[live[k].buffptr] == parts[k] && live[k].size == |parts[k]|
  {
    HoldsSize(blocks, live, parts);
    if k != 0 {
      HoldsAt(blocks, live[1..], parts[1..], k - 1);
    }
  }

  lemma {:induction false} HoldsSize(blocks: Blocks, live: seq<Entry>, parts: seq<seq<byte>>)
    requires Holds(blocks, live, parts)
    ensures |live| == |parts| && EntrySizes(live) == Sizes(parts)
  {
    if live != [] {
      HoldsSize(blocks, live[1..], parts[1..]);
      assert EntrySizes(live)[1..] == EntrySizes(live[1..]);
      assert Sizes(parts)[1..] == Sizes(parts[1..]);
      assert EntrySizes(live) == [live[0].size] + EntrySizes(live)[1..];
      assert Sizes(parts) == [|parts[0]|] + Sizes(parts)[1..];
    }
  }

  /** Only the blocks pointed to matter. */
  lemma {:induction false} HoldsFrame(blocks: Blocks, blocks': Blocks, live: seq<Entry>, parts: seq<seq<byte>>)
    requires Holds(blocks, live, parts)
    requires forall p :: p in Ptrs(live) && p in blocks ==> p in blocks' && blocks'[p] == blocks[p]
    ensures Holds(blocks', live, parts)
  {
    if live != [] {
      assert Ptrs(live[1..]) <= Ptrs(live);
      HoldsFrame(blocks, blocks', live[1..], parts[1..]);
    }
  }

  lemma {:induction false} HoldsSnoc(blocks: Blocks, live: seq<Entry>, parts: seq<seq<byte>>, e: Entry)
    requires Holds(blocks, live, parts) && e.buffptr in blocks && e.size == |blocks[e.buffptr]|
    ensures Holds(blocks, live + [e], parts + [blocks[e.buffptr]])
  {
    var bytes := blocks[e.buffptr];
    if live == [] {
      assert (live + [e])[1..] == [];
      assert (parts + [bytes])[1..] == [];
    } else {
      HoldsSnoc(blocks, live[1..], parts[1..], e);
      assert (live + [e])[1..] == live[1..] + [e];
      assert (parts + [bytes])[1..] == parts[1..] + [bytes];
    }
  }

  // ---- Transfers of ownership --------------------------------------------------------

  /** A fresh block belongs to nobody yet. */
  lemma OwnFresh(blocks: Blocks, live: seq<Entry>, pend: Entry, stray: set<Ptr>,
                 parts: seq<seq<byte>>, p: Ptr, bytes: seq<byte>)
    requires Owned(blocks, live, pend, stray) && Holds(blocks, live, parts)
    requires p != NULL && p !in blocks
    ensures Owned(blocks[p := bytes], live, pend, stray + {p})
    ensures Holds(blocks[p := bytes], live, parts)
    ensures p !in stray && |stray + {p}| == |stray| + 1
  {
    HoldsFrame(blocks, blocks[p := bytes], live, parts);
  }

  /** Freeing a block that nobody owns disturbs no entry. */
  lemma StrayFree(blocks: Blocks, live: seq<Entry>, pend: Entry, stray: set<Ptr>,
                  parts: seq<seq<byte>>, p: Ptr)
    requires Owned(blocks, live, pend, stray) && Holds(blocks, live, parts) && p in stray
    ensures p in blocks && p != pend.buffptr
    ensures Owned(blocks - {p}, live, pend, stray - {p})
    ensures Holds(blocks - {p}, live, parts)
    ensures |stray - {p}| == |stray| - 1
  {
    assert p in blocks.Keys;
    HoldsFrame(blocks, blocks - {p}, live, parts);
  }

  /** The pending entry takes over a block; the one it had belongs to nobody. */
  lemma Adopt(blocks: Blocks, live: seq<Entry>, pend: Entry, stray: set<Ptr>, p: Ptr, size: nat)
    requires Owned(blocks, live, pend, stray) && p in stray
    ensures Owned(blocks, live, Entry(p, size), stray - {p} + PtrOf(pend))
    ensures |stray - {p} + PtrOf(pend)| == |stray| - 1 + |PtrOf(pend)|
  {
  }

  /** The whole merge: a fresh block replaces the pending one and a stray one. */
  lemma MergeBlocks(blocks: Blocks, live: seq<Entry>, pend: Entry, stray: set<Ptr>,
                    parts: seq<seq<byte>>, k: Ptr, temp: Ptr, bytes: seq<byte>)
    requires Owned(blocks, live, pend, stray) && Holds(blocks, live, parts)
    requires pend.buffptr in blocks && k in stray && temp != NULL && temp !in blocks
    ensures var blocks' := blocks[temp := bytes] - {pend.buffptr} - {k};
            && temp in blocks' && blocks'[temp] == bytes
            && Owned(blocks', live, Entry(temp, |bytes|), stray - {k})
            && Holds(blocks', live, parts)
    ensures k in blocks && k != pend.buffptr && |stray - {k}| == |stray| - 1
  {
    var was, e := pend.buffptr, Entry(temp, |bytes|);
    OwnFresh(blocks, live, pend, stray, parts, temp, bytes);
    Adopt(blocks[temp := bytes], live, pend, stray + {temp}, temp, |bytes|);
    var held := stray + {temp} - {temp} + PtrOf(pend);
    StrayFree(blocks[temp := bytes], live, e, held, parts, was);
    StrayFree(blocks[temp := bytes] - {was}, live, e, held - {was}, parts, k);
    assert held - {was} - {k} == stray - {k};
  }

  lemma Append(blocks: Blocks, live: seq<Entry>, pend: Entry, stray: set<Ptr>, parts: seq<seq<byte>>)
    requires Owned(blocks, live, pend, stray) && Holds(blocks, live, parts)
    requires pend.buffptr in blocks && pend.size == |blocks[pend.buffptr]|
    ensures Owned(blocks, live + [pend], EMPTY, stray)
    ensures Holds(blocks, live + [pend], parts + [blocks[pend.buffptr]])
  {
    PtrsSnoc(live, pend);
    HoldsSnoc(blocks, live, parts, pend);
  }

  lemma Evict(blocks: Blocks, live: seq<Entry>, pend: Entry, stray: set<Ptr>, parts: seq<seq<byte>>)
    requires live != [] && Owned(blocks, live, pend, stray) && Holds(blocks, live, parts)
    requires pend.buffptr in blocks
    ensures live[0].buffptr in blocks && live[0].buffptr != NULL && live[0].buffptr != pend.buffptr
    ensures parts != []
    ensures Owned(blocks - {live[0].buffptr}, live[1..], pend, stray)
    ensures Holds(blocks - {live[0].buffptr}, live[1..], parts[1..])
  {
    PtrsTail(live);
    HoldsFrame(blocks, blocks - {live[0].buffptr}, live[1..], parts[1..]);
  }

  /** A ring with room takes over the pending entry's block. */
  lemma CommitRoom(blocks: Blocks, h: seq<Entry>, pend: Entry, stray: set<Ptr>, parts: seq<seq<byte>>)
    requires |h| == |parts| < CAPACITY
    requires Owned(blocks, Last(h), pend, stray) && Holds(blocks, Last(h), Last(parts))
    requires pend.buffptr in blocks && pend.size == |blocks[pend.buffptr]|
    ensures Owned(blocks, Last(h + [pend]), EMPTY, stray)
    ensures Holds(blocks, Last(h + [pend]), Last(parts + [blocks[pend.buffptr]]))
  {
    Append(blocks, h, pend, stray, parts);
  }

  /** A full ring also gives up its oldest block, which can then be freed. */
  lemma CommitFull(blocks: Blocks, h: seq<Entry>, pend: Entry, stray: set<Ptr>, parts: seq<seq<byte>>)
    requires |h| == |parts| >= CAPACITY
    requires Owned(blocks, Last(h), pend, stray) && Holds(blocks, Last(h), Last(parts))
    requires pend.buffptr in blocks && pend.size == |blocks[pend.buffptr]|
    ensures Last(h)[0].buffptr in blocks && Last(h)[0].buffptr != NULL
    ensures Owned(blocks - {Last(h)[0].buffptr}, Last(h + [pend]), EMPTY, stray)
    ensures Holds(blocks - {Last(h)[0].buffptr}, Last(h + [pend]), Last(parts + [blocks[pend.buffptr]]))
  {
    var (live, kept) := (Last(h), Last(parts));
    var bytes := blocks[pend.buffptr];
    Evict(blocks, live, pend, stray, kept);
    Append(blocks - {live[0].buffptr}, live[1..], pend, stray, kept[1..]);
    LastSnoc(h, pend);
    LastSnoc(parts, bytes);
  }

  /** Counting the live blocks by owner. */
  lemma BlockCount(blocks: Blocks, live: seq<Entry>, pend: Entry, stray: set<Ptr>)
    requires Owned(blocks, live, pend, stray)
    ensures |blocks| == |live| + (if pend.buffptr == NULL then 0 else 1) + |stray|
  {
  }
}
