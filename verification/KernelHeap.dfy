/** Kernel memory: live blocks by address. A block can be freed only while it is
    live, and written only inside its bounds. */
module KernelHeap {
  import opened Bytes
  import opened Pointers

  lemma {:induction false} AboveAll(s: set<Ptr>) returns (p: Ptr)
    ensures NULL < p && forall x :: x in s ==> x < p
  {
    if s == {} {
      p := 1;
    } else {
      var x :| x in s;
      var q := AboveAll(s - {x});
      p := if x < q then q else x + 1;
      assert forall y :: y in s ==> y == x || y in s - {x};
    }
  }

  class Heap {
    const limit: nat
    var blocks: map<Ptr, seq<byte>>

    constructor (limit: nat)
      ensures this.limit == limit && blocks == map[]
    {
      this.limit := limit;
      blocks := map[];
    }

    /** Some address not in use, with contents nobody may rely on; or NULL. */
    method Kmalloc(size: nat, ok: bool) returns (p: Ptr)
      modifies this
      ensures p == NULL <==> !ok || size > limit
      ensures p == NULL ==> blocks == old(blocks)
      ensures p != NULL ==> p !in old(blocks) && p in blocks && |blocks[p]| == size
                            && blocks == old(blocks)[p := blocks[p]]
    {
      if !ok || size > limit {
        return NULL;
      }
      ghost var unused := AboveAll(blocks.Keys);
      assert unused != NULL && unused !in blocks;
      p :| p != NULL && p !in blocks;
      blocks := blocks[p := Zeros(size)];
    }

    method Kfree(p: Ptr)
      requires p == NULL || p in blocks
      modifies this
      ensures blocks == if p == NULL then old(blocks) else old(blocks) - {p}
    {
      if p != NULL {
        blocks := blocks - {p};
      }
    }

    /** memcpy into a live block. */
    method Store(p: Ptr, at: nat, data: seq<byte>)
      requires p in blocks && at + |data| <= |blocks[p]|
      modifies this
      ensures blocks == old(blocks)[p := Overlay(old(blocks)[p], at, data)]
    {
      blocks := blocks[p := Overlay(blocks[p], at, data)];
    }

    /** A new block filled with the given bytes. */
    method KmallocFrom(bytes: seq<byte>, ok: bool) returns (p: Ptr)
      modifies this
      ensures p == NULL <==> !ok || |bytes| > limit
      ensures p == NULL ==> blocks == old(blocks)
      ensures p != NULL ==> p !in old(blocks) && blocks == old(blocks)[p := bytes]
    {
      p := Kmalloc(|bytes|, ok);
      if p != NULL {
        assert Overlay(blocks[p], 0, bytes) == bytes;
        Store(p, 0, bytes);
      }
    }

    /** A new block with the first n bytes of a, then the first m bytes of b; both
        old blocks are freed. Without memory for it nothing happens. */
    method Join(a: Ptr, n: nat, b: Ptr, m: nat, ok: bool) returns (temp: Ptr)
      requires a in blocks && b in blocks && a != b && NULL !in blocks
      requires n <= |blocks[a]| && m <= |blocks[b]|
      modifies this
      ensures temp == NULL <==> !ok || n + m > limit
      ensures temp == NULL ==> blocks == old(blocks)
      ensures temp != NULL ==> temp !in old(blocks)
      ensures temp != NULL ==>
                blocks == old(blocks)[temp := old(blocks)[a][..n] + old(blocks)[b][..m]] - {a} - {b}
    {
      temp := Kmalloc(n + m, ok);
      if temp != NULL {
        OverlayTwice(blocks[temp], blocks[a][..n], blocks[b][..m]);
        Store(temp, 0, blocks[a][..n]);
        Store(temp, n, blocks[b][..m]);
        Kfree(a);
        Kfree(b);
      }
    }
  }

  function Overlay(block: seq<byte>, at: nat, data: seq<byte>): (r: seq<byte>)
    requires at + |data| <= |block|
    ensures |r| == |block|
  {
    block[..at] + data + block[at + |data|..]
  }

  /** Filling a block in two consecutive pieces leaves their concatenation. */
  lemma OverlayTwice(block: seq<byte>, a: seq<byte>, b: seq<byte>)
    requires |a| + |b| == |block|
    ensures Overlay(Overlay(block, 0, a), |a|, b) == a + b
  {
  }
}
