/** Byte strings, their concatenation, and sums of sizes. */
module Bytes {

  type byte = b: int | 0 <= b < 256

  const NEWLINE: byte := 10
  const NUL: byte := 0

  /** All the parts, end to end. */
  function Concat(parts: seq<seq<byte>>): seq<byte> {
    if parts == [] then [] else parts[0] + Concat(parts[1..])
  }

  function Sum(sizes: seq<nat>): nat {
    if sizes == [] then 0 else sizes[0] + Sum(sizes[1..])
  }

  function Sizes(parts: seq<seq<byte>>): (r: seq<nat>)
    ensures |r| == |parts|
  {
    seq(|parts|, i requires 0 <= i < |parts| => |parts[i]|)
  }

  function Zeros(n: nat): (r: seq<byte>)
    ensures |r| == n
  {
    seq(n, _ => NUL)
  }

  function Min(a: nat, b: nat): nat {
    if a < b then a else b
  }

  lemma Associates<T>(a: seq<T>, b: seq<T>, c: seq<T>)
    ensures a + (b + c) == a + b + c
  {
  }

  lemma {:induction false} ConcatAppend(a: seq<seq<byte>>, b: seq<seq<byte>>)
    ensures Concat(a + b) == Concat(a) + Concat(b)
  {
    if a == [] {
      assert a + b == b;
    } else {
      assert (a + b)[1..] == a[1..] + b;
      ConcatAppend(a[1..], b);
    }
  }

  lemma ConcatSnoc(a: seq<seq<byte>>, x: seq<byte>)
    ensures Concat(a + [x]) == Concat(a) + x
  {
    ConcatAppend(a, [x]);
    assert Concat([x]) == x + Concat([]);
  }

  lemma ConcatLast(parts: seq<seq<byte>>)
    requires parts != []
    ensures Concat(parts) == Concat(parts[..|parts| - 1]) + parts[|parts| - 1]
  {
    assert parts == parts[..|parts| - 1] + [parts[|parts| - 1]];
    ConcatSnoc(parts[..|parts| - 1], parts[|parts| - 1]);
  }

  lemma {:induction false} SumAppend(a: seq<nat>, b: seq<nat>)
    ensures Sum(a + b) == Sum(a) + Sum(b)
  {
    if a == [] {
      assert a + b == b;
    } else {
      assert (a + b)[1..] == a[1..] + b;
      SumAppend(a[1..], b);
    }
  }

  /** The running total over one more element, as a loop computes it. */
  lemma SumSnoc(a: seq<nat>, k: nat)
    requires k < |a|
    ensures Sum(a[..k + 1]) == Sum(a[..k]) + a[k]
  {
    assert a[..k + 1] == a[..k] + [a[k]];
    SumAppend(a[..k], [a[k]]);
    assert Sum([a[k]]) == a[k] + Sum([]);
  }

  lemma SumPrefix(a: seq<nat>, k: nat)
    requires k <= |a|
    ensures Sum(a[..k]) <= Sum(a) && Sum(a) == Sum(a[..k]) + Sum(a[k..])
  {
    assert a == a[..k] + a[k..];
    SumAppend(a[..k], a[k..]);
  }

  lemma SumMonotone(a: seq<nat>, j: nat, k: nat)
    requires j <= k <= |a|
    ensures Sum(a[..j]) <= Sum(a[..k])
  {
    SumPrefix(a[..k], j);
    assert a[..k][..j] == a[..j];
  }

  lemma {:induction false} ConcatSize(parts: seq<seq<byte>>)
    ensures |Concat(parts)| == Sum(Sizes(parts))
  {
    if parts != [] {
      assert Sizes(parts)[1..] == Sizes(parts[1..]);
      ConcatSize(parts[1..]);
    }
  }

  lemma {:induction false} SumBound(sizes: seq<nat>, limit: nat)
    requires forall i :: 0 <= i < |sizes| ==> sizes[i] <= limit
    ensures Sum(sizes) <= |sizes| * limit
  {
    if sizes != [] {
      SumBound(sizes[1..], limit);
    }
  }

  lemma {:induction false} SumZero(sizes: seq<nat>)
    requires forall i :: 0 <= i < |sizes| ==> sizes[i] == 0
    ensures Sum(sizes) == 0
  {
    if sizes != [] {
      SumZero(sizes[1..]);
    }
  }

  lemma SliceOfSuffix(s: seq<byte>, a: nat, b: nat, c: nat)
    requires a + b <= a + c <= |s|
    ensures s[a..][b..c] == s[a + b..a + c]
  {
  }

  /** `got` is what `content` holds from position p on, for as long as it goes. */
  ghost predicate SliceAt(content: seq<byte>, p: nat, got: seq<byte>) {
    got == [] || (p + |got| <= |content| && got == content[p..p + |got|])
  }

  /** Slices taken one after the other, while the content grows, form a slice. */
  lemma SliceJoin(was: seq<byte>, now: seq<byte>, p: nat, a: seq<byte>, b: seq<byte>)
    requires was <= now && SliceAt(was, p, a) && SliceAt(now, p + |a|, b)
    ensures SliceAt(now, p, a + b)
  {
  }
}
