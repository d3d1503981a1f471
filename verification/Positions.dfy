/** Finding a byte of a list of blocks by its position in their concatenation:
    the mathematical lookup `Locate`, the 32-bit scan the driver performs, and
    the exact condition under which the two agree. */
module Positions {
  import opened Bytes

  const TWO31: int := 0x8000_0000
  const TWO32: int := 0x1_0000_0000
  const TWO63: int := 0x8000_0000_0000_0000
  const TWO64: int := 0x1_0000_0000_0000_0000

  /** A block index and an offset inside that block, or no such byte. */
  datatype Hit = Miss | At(index: nat, inner: nat)

  /** Reference lookup over unbounded integers. */
  function Locate(sizes: seq<nat>, off: nat): Hit {
    if sizes == [] then Miss
    else if off < sizes[0] then At(0, off)
    else
      match Locate(sizes[1..], off - sizes[0])
      case Miss => Miss
      case At(k, i) => At(k + 1, i)
  }

  /** `Locate` is the inverse of "size of everything before block k, plus i". */
  lemma {:induction false} LocateIff(sizes: seq<nat>, off: nat, k: nat, i: nat)
    ensures Locate(sizes, off) == At(k, i)
       <==> k < |sizes| && i < sizes[k] && off == Sum(sizes[..k]) + i
  {
    if sizes == [] {
    } else if k == 0 {
      assert sizes[..0] == [];
    } else if k < |sizes| {
      assert sizes[..k][1..] == sizes[1..][..k - 1];
      if sizes[0] <= off {
        LocateIff(sizes[1..], off - sizes[0], k - 1, i);
      }
    } else if sizes[0] <= off {
      LocateIff(sizes[1..], off - sizes[0], k - 1, i);
    }
  }

  /** Nothing is found exactly when the position is at or past the total size. */
  lemma {:induction false} LocateMissIff(sizes: seq<nat>, off: nat)
    ensures Locate(sizes, off) == Miss <==> Sum(sizes) <= off
  {
    if sizes != [] && sizes[0] <= off {
      LocateMissIff(sizes[1..], off - sizes[0]);
    }
  }

  lemma MiddleSlice(a: seq<byte>, b: seq<byte>, c: seq<byte>, i: nat, n: nat)
    requires i + n <= |b|
    ensures b[i..i + n] == (a + (b + c))[|a| + i..|a| + i + n]
  {
  }

  /** The block found, and the concatenation cut around it. */
  lemma LocateBlock(parts: seq<seq<byte>>, off: nat)
    requires off < |Concat(parts)|
    ensures Locate(Sizes(parts), off).At?
    ensures var At(k, i) := Locate(Sizes(parts), off);
            && k < |parts| && i < |parts[k]|
            && off == |Concat(parts[..k])| + i
            && Concat(parts) == Concat(parts[..k]) + (parts[k] + Concat(parts[k + 1..]))
  {
    ConcatSize(parts);
    LocateMissIff(Sizes(parts), off);
    var At(k, i) := Locate(Sizes(parts), off);
    LocateIff(Sizes(parts), off, k, i);
    assert Sizes(parts)[..k] == Sizes(parts[..k]);
    ConcatSize(parts[..k]);
    assert parts == parts[..k] + parts[k..];
    ConcatAppend(parts[..k], parts[k..]);
    assert parts[k..][1..] == parts[k + 1..];
  }

  /** The byte found is the byte at that position of the concatenation. */
  lemma LocateByte(parts: seq<seq<byte>>, off: nat)
    requires off < |Concat(parts)|
    ensures Locate(Sizes(parts), off).At?
    ensures var At(k, i) := Locate(Sizes(parts), off);
            k < |parts| && i < |parts[k]| && Concat(parts)[off] == parts[k][i]
  {
    LocateBlock(parts, off);
    var At(k, i) := Locate(Sizes(parts), off);
    var (a, b, c) := (Concat(parts[..k]), parts[k], Concat(parts[k + 1..]));
    assert (a + (b + c))[|a| + i] == b[i];
  }

  /** What is stored from the byte found to the end of its block is what the
      concatenation holds from that position on. */
  lemma LocateSlice(parts: seq<seq<byte>>, off: nat, n: nat)
    requires off < |Concat(parts)|
    ensures Locate(Sizes(parts), off).At?
    ensures var At(k, i) := Locate(Sizes(parts), off);
            && k < |parts| && i < |parts[k]|
            && (i + n <= |parts[k]| ==> SliceAt(Concat(parts), off, parts[k][i..i + n]))
  {
    LocateBlock(parts, off);
    var At(k, i) := Locate(Sizes(parts), off);
    if i + n <= |parts[k]| {
      MiddleSlice(Concat(parts[..k]), parts[k], Concat(parts[k + 1..]), i, n);
    }
  }

  /** Trailing empty blocks change nothing: they cannot hold a byte. */
  lemma LocatePadding(sizes: seq<nat>, padding: seq<nat>, off: nat)
    requires forall i :: 0 <= i < |padding| ==> padding[i] == 0
    ensures Locate(sizes + padding, off) == Locate(sizes, off)
  {
    SumAppend(sizes, padding);
    SumZero(padding);
    LocateMissIff(sizes, off);
    LocateMissIff(sizes + padding, off);
    if off < Sum(sizes) {
      var At(k, i) := Locate(sizes, off);
      LocateIff(sizes, off, k, i);
      assert (sizes + padding)[..k] == sizes[..k];
      LocateIff(sizes + padding, off, k, i);
    }
  }

  // ---- The driver's arithmetic -------------------------------------------

  /** The low 32 bits. */
  function Uint32(v: int): (r: nat)
    ensures r < TWO32
    ensures 0 <= v < TWO32 ==> r == v
  {
    v % 0x1_0000_0000
  }

  /** `int acc; acc += n` where n is a size_t: truncation to 32 signed bits. */
  function AddInt32(acc: int, n: nat): (r: int)
    ensures -TWO31 <= r < TWO31
  {
    var w := Uint32(acc + n);
    if w < TWO31 then w else w - TWO32
  }

  /** Equal low bits stay equal when the same amount is added. */
  lemma Uint32Add(a: int, b: int, n: int)
    requires Uint32(a) == Uint32(b)
    ensures Uint32(a + n) == Uint32(b + n)
  {
  }

  /** The truncated sum has the low bits of the sum. */
  lemma AddInt32Mod(acc: int, n: nat)
    ensures Uint32(AddInt32(acc, n)) == Uint32(acc + n)
  {
  }

  /** An int compared with or subtracted from a size_t becomes 64-bit unsigned. */
  function AsSize(v: int): int {
    if v < 0 then v + TWO64 else v
  }

  /** size_t subtraction. */
  function SubSize(a: nat, b: int): (r: nat) {
    (a - AsSize(b)) % 0x1_0000_0000_0000_0000
  }

  /** The conversion keeps every nonnegative int and lands in the upper half of size_t
      otherwise; the subtraction is undone by adding, up to multiples of 2^64. */
  lemma SizeArithmetic(a: nat, b: int)
    requires a < TWO64 && -TWO31 <= b < TWO31
    ensures if 0 <= b then AsSize(b) == b else TWO64 - TWO31 <= AsSize(b) < TWO64 && AsSize(b) - TWO64 == b
    ensures SubSize(a, b) < TWO64
    ensures SubSize(a, b) + AsSize(b) == a || SubSize(a, b) + AsSize(b) == a + TWO64
  {
    var d := a - AsSize(b);
    if 0 <= d {
      assert d % 0x1_0000_0000_0000_0000 == d;
    } else {
      assert (d + TWO64) % 0x1_0000_0000_0000_0000 == d + TWO64;
      assert d % 0x1_0000_0000_0000_0000 == (d + TWO64) % 0x1_0000_0000_0000_0000;
    }
  }

  /** The scan of the driver from block k on, with its two running totals.
      It stops with nothing as soon as the running total is zero. */
  function Scan(sizes: seq<nat>, k: nat, pos: int, start: int, off: nat): (r: Hit)
    requires k <= |sizes|
    ensures r.At? ==> k <= r.index < |sizes|
    decreases |sizes| - k
  {
    if k == |sizes| then Miss
    else
      var pos' := AddInt32(pos, sizes[k]);
      if pos' == 0 then Miss
      else if off < AsSize(pos') then At(k, SubSize(off, start))
      else Scan(sizes, k + 1, pos', AddInt32(start, sizes[k]), off)
  }

  /** Scanning from a total that has not overflowed is the reference lookup. */
  lemma {:induction false} ScanStep(sizes: seq<nat>, k: nat, off: nat)
    requires k <= |sizes| && Sum(sizes) < TWO31
    requires 0 < |sizes| && 0 < sizes[0]
    requires Sum(sizes[..k]) <= off
    ensures Scan(sizes, k, Sum(sizes[..k]), Sum(sizes[..k]), off) == Locate(sizes, off)
    decreases |sizes| - k
  {
    LocateMissIff(sizes, off);
    if k == |sizes| {
      assert sizes[..k] == sizes;
    } else {
      var before := Sum(sizes[..k]);
      SumSnoc(sizes, k);
      SumPrefix(sizes, k + 1);
      SumMonotone(sizes, 1, k + 1);
      assert sizes[..1] == [sizes[0]];
      assert Sum([sizes[0]]) == sizes[0] + Sum([]);
      assert AddInt32(before, sizes[k]) == before + sizes[k];
      if off < before + sizes[k] {
        LocateIff(sizes, off, k, off - before);
      } else {
        ScanStep(sizes, k + 1, off);
      }
    }
  }

  /** Nothing is stored, or the oldest block is nonempty and the total fits an int. */
  predicate Scannable(sizes: seq<nat>) {
    Sum(sizes) == 0 || (0 < sizes[0] && Sum(sizes) < TWO31)
  }

  lemma ScanIsLocate(sizes: seq<nat>, off: nat)
    requires Scannable(sizes)
    ensures Scan(sizes, 0, 0, 0, off) == Locate(sizes, off)
  {
    LocateMissIff(sizes, off);
    if Sum(sizes) == 0 {
      if sizes != [] {
        SumPrefix(sizes, 1);
        assert sizes[..1] == [sizes[0]];
        assert AddInt32(0, sizes[0]) == 0;
      }
    } else {
      assert sizes[..0] == [];
      ScanStep(sizes, 0, off);
    }
  }

  /** The position of byte i of block k, in 32 bits. */
  function Position(sizes: seq<nat>, k: nat, i: nat): nat
    requires k <= |sizes|
  {
    Uint32(Sum(sizes[..k]) + i)
  }

  /** Looking up, in 32 bits, the 32-bit position of a byte finds that byte. */
  lemma ScanUndoesPosition(sizes: seq<nat>, k: nat, i: nat)
    requires Scannable(sizes) && k < |sizes| && i < sizes[k]
    ensures Scan(sizes, 0, 0, 0, Position(sizes, k, i)) == At(k, i)
  {
    SumSnoc(sizes, k);
    SumPrefix(sizes, k + 1);
    var pos := Sum(sizes[..k]) + i;
    assert Uint32(pos) == pos;
    ScanIsLocate(sizes, pos);
    LocateIff(sizes, pos, k, i);
  }

  /** The 32-bit position of the byte that a lookup finds is the one looked up. */
  lemma PositionUndoesScan(sizes: seq<nat>, pos: nat)
    requires Scannable(sizes) && pos < Sum(sizes)
    ensures var hit := Scan(sizes, 0, 0, 0, pos);
            hit.At? && hit.inner < sizes[hit.index] && Position(sizes, hit.index, hit.inner) == pos
  {
    ScanIsLocate(sizes, pos);
    LocateMissIff(sizes, pos);
    var hit := Locate(sizes, pos);
    LocateIff(sizes, pos, hit.index, hit.inner);
  }

  /** The total size of the first blocks, truncated to 32 signed bits. */
  function Total32(sizes: seq<nat>, k: nat): int
    requires k <= |sizes|
  {
    AddInt32(0, Sum(sizes[..k]))
  }

  /** Truncating on the way is truncating at the end. */
  lemma TotalNext(sizes: seq<nat>, k: nat)
    requires k < |sizes|
    ensures AddInt32(Total32(sizes, k), sizes[k]) == Total32(sizes, k + 1)
  {
    var sum := Sum(sizes[..k]);
    SumSnoc(sizes, k);
    AddInt32Mod(0, sum);
    Uint32Add(AddInt32(0, sum), sum, sizes[k]);
  }

  /** The scan passes block j by. */
  predicate Passes(sizes: seq<nat>, j: nat, off: nat) {
    j < |sizes| && Total32(sizes, j + 1) != 0 && AsSize(Total32(sizes, j + 1)) <= off
  }

  /** The scan stops in block k, i bytes behind its beginning. */
  predicate StopsIn(sizes: seq<nat>, k: nat, i: nat, off: nat) {
    && k < |sizes| && Total32(sizes, k + 1) != 0 && off < AsSize(Total32(sizes, k + 1))
    && i == SubSize(off, Total32(sizes, k))
  }

  lemma {:induction false} ScanFromIff(sizes: seq<nat>, m: nat, off: nat, k: nat, i: nat)
    requires m <= |sizes|
    ensures Scan(sizes, m, Total32(sizes, m), Total32(sizes, m), off) == At(k, i)
       <==> m <= k && StopsIn(sizes, k, i, off) && forall j :: m <= j < k ==> Passes(sizes, j, off)
    decreases |sizes| - m
  {
    if m < |sizes| {
      TotalNext(sizes, m);
      ScanFromIff(sizes, m + 1, off, k, i);
      if m < k && !Passes(sizes, m, off) {
        assert !forall j :: m <= j < k ==> Passes(sizes, j, off);
      }
    }
  }

  /** What the driver finds for any sizes at all, overflowing or not: it stops at the first
      block whose truncated total is above the position, unless a total before that, or
      that one, is zero; and it subtracts the truncated total before that block. */
  lemma ScanIff(sizes: seq<nat>, off: nat, k: nat, i: nat)
    ensures Scan(sizes, 0, 0, 0, off) == At(k, i)
       <==> StopsIn(sizes, k, i, off) && forall j :: 0 <= j < k ==> Passes(sizes, j, off)
  {
    assert sizes[..0] == [];
    assert Total32(sizes, 0) == 0;
    ScanFromIff(sizes, 0, off, k, i);
  }

  /** Once the total passes 2^31 some position is looked up wrongly. */
  lemma {:induction false} ScanOverflow(sizes: seq<nat>, k: nat) returns (off: nat)
    requires forall i :: 0 <= i < |sizes| ==> sizes[i] < TWO63
    requires k < |sizes| && 0 < sizes[0] && Sum(sizes[..k]) < TWO31 <= Sum(sizes)
    ensures TWO31 - 1 <= off < TWO64
    ensures Scan(sizes, k, Sum(sizes[..k]), Sum(sizes[..k]), off) != Locate(sizes, off)
    decreases |sizes| - k
  {
    var before := Sum(sizes[..k]);
    var after := before + sizes[k];
    SumSnoc(sizes, k);
    SumMonotone(sizes, 1, k + 1);
    assert sizes[..1] == [sizes[0]];
    assert Sum([sizes[0]]) == sizes[0] + Sum([]);
    if after < TWO31 {
      assert AddInt32(before, sizes[k]) == after;
      assert sizes[..|sizes|] == sizes;
      off := ScanOverflow(sizes, k + 1);
    } else {
      var wrapped := AddInt32(before, sizes[k]);
      if wrapped < 0 {
        off := after;
        LocateIff(sizes, off, k, SubSize(off, before));
      } else {
        off := after - 1;
        assert wrapped <= off;
        LocateIff(sizes, off, k, sizes[k] - 1);
      }
    }
  }

  /** The driver's scan looks up every position correctly if and only if nothing
      is stored, or the oldest block is nonempty and the total fits an int. */
  lemma ScanCorrectIff(sizes: seq<nat>)
    requires forall i :: 0 <= i < |sizes| ==> sizes[i] < TWO63
    ensures (forall off: nat | off < TWO64 :: Scan(sizes, 0, 0, 0, off) == Locate(sizes, off))
       <==> Scannable(sizes)
  {
    if Scannable(sizes) {
      forall off: nat | off < TWO64
        ensures Scan(sizes, 0, 0, 0, off) == Locate(sizes, off)
      {
        ScanIsLocate(sizes, off);
      }
    } else if sizes[0] == 0 {
      LocateMissIff(sizes, 0);
      assert Scan(sizes, 0, 0, 0, 0) != Locate(sizes, 0);
    } else {
      assert sizes[..0] == [];
      var off := ScanOverflow(sizes, 0);
    }
  }
}
