/** The list of connection threads, linked through the nodes' own `next` fields, and
    the walk that removes and frees the finished ones while others go on finishing.
    Memory is explicit: a freed node is gone and can be neither read nor freed. */
module ThreadList {
  import opened Pointers

  datatype Node = Node(complete: bool, next: Ptr)

  type Nodes = map<Ptr, Node>

  // ---- Paths through memory ------------------------------------------------------------

  /** Following `next` from p visits exactly `path` and then arrives at q. */
  ghost predicate Seg(mem: Nodes, p: Ptr, path: seq<Ptr>, q: Ptr)
    decreases |path|
  {
    if path == [] then p == q
    else p == path[0] && p != NULL && p in mem && Seg(mem, mem[p].next, path[1..], q)
  }

  ghost predicate Distinct(path: seq<Ptr>) {
    path == [] || (path[0] !in path[1..] && Distinct(path[1..]))
  }

  /** A path stays inside memory. */
  lemma {:induction false} SegInside(mem: Nodes, p: Ptr, path: seq<Ptr>, q: Ptr, x: Ptr)
    requires Seg(mem, p, path, q) && x in path
    ensures x in mem
    decreases |path|
  {
    if x != path[0] {
      SegInside(mem, mem[p].next, path[1..], q, x);
    }
  }

  /** Only the `next` fields on the path matter. */
  lemma {:induction false} SegFrame(mem: Nodes, mem': Nodes, p: Ptr, path: seq<Ptr>, q: Ptr)
    requires Seg(mem, p, path, q)
    requires forall x :: x in path && x in mem ==> x in mem' && mem'[x].next == mem[x].next
    ensures Seg(mem', p, path, q)
    decreases |path|
  {
    if path != [] {
      SegFrame(mem, mem', mem[p].next, path[1..], q);
    }
  }

  /** Paths can be joined and cut. */
  lemma {:induction false} SegJoin(mem: Nodes, p: Ptr, a: seq<Ptr>, m: Ptr, b: seq<Ptr>, q: Ptr)
    requires Seg(mem, p, a, m) && Seg(mem, m, b, q)
    ensures Seg(mem, p, a + b, q)
    decreases |a|
  {
    if a == [] {
      assert a + b == b;
    } else {
      SegJoin(mem, mem[p].next, a[1..], m, b, q);
      assert (a + b)[1..] == a[1..] + b;
    }
  }

  /** Redirecting the last node of a path moves its end. */
  lemma {:induction false} SegRedirect(mem: Nodes, p: Ptr, path: seq<Ptr>, q: Ptr, q': Ptr)
    requires path != [] && Seg(mem, p, path, q) && Distinct(path)
    ensures var last := path[|path| - 1];
            last in mem && Seg(mem[last := mem[last].(next := q')], p, path, q')
    decreases |path|
  {
    if |path| > 1 {
      SegRedirect(mem, mem[p].next, path[1..], q, q');
    }
  }

  lemma {:induction false} DistinctAppend(a: seq<Ptr>, b: seq<Ptr>, x: Ptr)
    requires Distinct(a + b)
    ensures Distinct(a) && Distinct(b) && !(x in a && x in b)
  {
    if a == [] {
      assert a + b == b;
    } else {
      assert (a + b)[1..] == a[1..] + b;
      DistinctAppend(a[1..], b, x);
      assert x in b ==> x in a[1..] + b;
      assert a == [a[0]] + a[1..];
    }
  }

  lemma {:induction false} DistinctSnoc(a: seq<Ptr>, x: Ptr)
    requires Distinct(a) && x !in a
    ensures Distinct(a + [x])
  {
    if a == [] {
      assert (a + [x])[1..] == [];
    } else {
      DistinctSnoc(a[1..], x);
      assert (a + [x])[1..] == a[1..] + [x];
    }
  }

  // ---- Keeping and removing ---------------------------------------------------------------

  /** The nodes whose mark is `keep`, in order. */
  ghost function Select(path: seq<Ptr>, marks: seq<bool>, keep: bool): seq<Ptr>
    requires |marks| == |path|
  {
    if path == [] then []
    else
      var n := |path| - 1;
      Select(path[..n], marks[..n], keep) + if marks[n] == keep then [path[n]] else []
  }

  lemma SelectSnoc(path: seq<Ptr>, marks: seq<bool>, k: nat, keep: bool)
    requires k < |path| == |marks|
    ensures Select(path[..k + 1], marks[..k + 1], keep)
         == Select(path[..k], marks[..k], keep) + if marks[k] == keep then [path[k]] else []
  {
    assert path[..k + 1][..k] == path[..k] && marks[..k + 1][..k] == marks[..k];
  }

  /** Removing what is marked and keeping what is not loses no node. */
  lemma {:induction false} SelectPartition(path: seq<Ptr>, marks: seq<bool>, x: Ptr)
    requires |marks| == |path|
    ensures x in path <==> x in Select(path, marks, true) || x in Select(path, marks, false)
    ensures |Select(path, marks, true)| + |Select(path, marks, false)| == |path|
  {
    if path != [] {
      var n := |path| - 1;
      var yes, no := Select(path[..n], marks[..n], true), Select(path[..n], marks[..n], false);
      SelectPartition(path[..n], marks[..n], x);
      assert path == path[..n] + [path[n]];
      if marks[n] {
        assert Select(path, marks, true) == yes + [path[n]] && Select(path, marks, false) == no;
      } else {
        assert Select(path, marks, true) == yes && Select(path, marks, false) == no + [path[n]];
      }
    }
  }

  /** A node is selected once at most. */
  lemma {:induction false} SelectDistinct(path: seq<Ptr>, marks: seq<bool>, keep: bool)
    requires |marks| == |path| && Distinct(path)
    ensures Distinct(Select(path, marks, keep))
  {
    if path != [] {
      var n := |path| - 1;
      var chosen := Select(path[..n], marks[..n], keep);
      assert path == path[..n] + [path[n]];
      DistinctAppend(path[..n], [path[n]], path[n]);
      SelectDistinct(path[..n], marks[..n], keep);
      SelectPartition(path[..n], marks[..n], path[n]);
      assert path[n] !in chosen;
      if marks[n] == keep {
        DistinctSnoc(chosen, path[n]);
      } else {
        assert Select(path, marks, keep) == chosen;
      }
    }
  }

  /** A node is selected under its own mark only. */
  lemma {:induction false} SelectAt(path: seq<Ptr>, marks: seq<bool>, keep: bool, k: nat)
    requires |marks| == |path| && Distinct(path) && k < |path|
    ensures path[k] in Select(path, marks, keep) <==> marks[k] == keep
  {
    var n := |path| - 1;
    var x, chosen := path[k], Select(path[..n], marks[..n], keep);
    assert path == path[..n] + [path[n]];
    DistinctAppend(path[..n], [path[n]], x);
    if k < n {
      SelectAt(path[..n], marks[..n], keep, k);
      assert x in path[..n] && x != path[n];
      assert x in Select(path, marks, keep) <==> x in chosen;
    } else {
      SelectPartition(path[..n], marks[..n], x);
      assert x !in chosen;
    }
  }

  /** The threads that have finished by the time k nodes were looked at. */
  ghost function FinishedBy(finish: seq<set<Ptr>>, k: nat): set<Ptr>
    requires k <= |finish|
  {
    if k == 0 then {} else FinishedBy(finish, k - 1) + finish[k - 1]
  }

  /** Which nodes the walk finds finished: complete at the start, or by their turn. */
  ghost function Marks(mem: Nodes, path: seq<Ptr>, finish: seq<set<Ptr>>): (r: seq<bool>)
    requires |path| == |finish|
    ensures |r| == |path|
  {
    seq(|path|, k requires 0 <= k < |path| =>
      (path[k] in mem && mem[path[k]].complete) || path[k] in FinishedBy(finish, k + 1))
  }

  /** Whatever the walk finds finished, no node is freed twice, no freed node stays
      in the list, nobody is lost, and what was complete at the start is freed. */
  lemma CleanupSound(mem: Nodes, path: seq<Ptr>, finish: seq<set<Ptr>>, k: nat)
    requires |path| == |finish| && Distinct(path) && k < |path|
    ensures var marks := Marks(mem, path, finish);
            var freed, kept := Select(path, marks, true), Select(path, marks, false);
            && Distinct(freed) && Distinct(kept) && |freed| + |kept| == |path|
            && (path[k] in freed <==> path[k] !in kept)
            && (path[k] in mem && mem[path[k]].complete ==> path[k] in freed)
            && (path[k] in freed ==> (path[k] in mem && mem[path[k]].complete) || path[k] in FinishedBy(finish, k + 1))
  {
    SelectSound(path, Marks(mem, path, finish), k);
  }

  /** Selecting by marks splits a list in two. */
  lemma SelectSound(path: seq<Ptr>, marks: seq<bool>, k: nat)
    requires |marks| == |path| && Distinct(path) && k < |path|
    ensures var freed, kept := Select(path, marks, true), Select(path, marks, false);
            && Distinct(freed) && Distinct(kept) && |freed| + |kept| == |path|
            && (path[k] in freed <==> marks[k]) && (path[k] in kept <==> !marks[k])
  {
    SelectDistinct(path, marks, true);
    SelectDistinct(path, marks, false);
    SelectPartition(path, marks, path[k]);
    SelectAt(path, marks, true, k);
    SelectAt(path, marks, false, k);
  }

  // ---- The list ------------------------------------------------------------------------------

  /** Threads set their own flags. */
  function Complete(mem: Nodes, threads: set<Ptr>): (r: Nodes)
    ensures r.Keys == mem.Keys
    ensures forall x :: x in mem ==>
              r[x].next == mem[x].next && (r[x].complete <==> mem[x].complete || x in threads)
  {
    map x | x in mem :: mem[x].(complete := mem[x].complete || x in threads)
  }

  class List {
    var first: Ptr
    var mem: Nodes

    /** The nodes in the list, in order. */
    ghost var path: seq<Ptr>

    ghost predicate Valid()
      reads this
    {
      Distinct(path) && Seg(mem, first, path, NULL)
    }

    constructor ()
      ensures Valid() && path == [] && mem == map[]
    {
      first, mem, path := NULL, map[], [];
    }

    /** SLIST_INSERT_HEAD of a freshly allocated node. Its thread was started before,
        so it may have finished already. */
    method InsertHead(p: Ptr, complete: bool)
      requires Valid() && p != NULL && p !in mem
      modifies this
      ensures Valid() && path == [p] + old(path)
      ensures mem == old(mem)[p := Node(complete, old(first))]
    {
      if p in path { SegInside(mem, first, path, NULL, p); }
      SegFrame(mem, mem[p := Node(complete, first)], first, path, NULL);
      mem := mem[p := Node(complete, first)];
      first := p;
      path := [p] + path;
    }

    /** SLIST_REMOVE of the node behind `kept`: the head moves on, or the predecessor
        is searched for from the head and bypasses the node. */
    method Remove(info: Ptr, ghost kept: seq<Ptr>, ghost rest: seq<Ptr>)
      requires Distinct(kept + rest) && rest != [] && rest[0] == info
      requires Seg(mem, first, kept, info) && Seg(mem, info, rest, NULL)
      modifies this`first, this`mem
      ensures mem.Keys == old(mem).Keys && forall x :: x in mem ==> mem[x].complete == old(mem)[x].complete
      ensures info in mem && mem[info] == old(mem)[info]
      ensures Seg(mem, first, kept, mem[info].next) && Seg(mem, mem[info].next, rest[1..], NULL)
    {
      DistinctAppend(kept, rest, info);
      if first == info {
        OnlyEmpty(mem, first, kept, rest);
        first := mem[info].next;
      } else {
        var cur := FindBefore(info, kept, rest);
        DistinctAppend(kept, rest, cur);
        SegRedirect(mem, first, kept, info, mem[info].next);
        ghost var was := mem;
        mem := mem[cur := mem[cur].(next := mem[info].next)];
        SegFrame(was, mem, was[info].next, rest[1..], NULL);
      }
    }

    /** cleanup_threads. `finish[k]` are the threads that set their flag just before
        the k-th node is looked at. A node is taken out and freed if and only if its
        flag was on at the start or came on before its turn; the others stay in the
        list, in order, and in memory. */
    method Cleanup(finish: seq<set<Ptr>>) returns (freed: seq<Ptr>)
      requires Valid() && |finish| == |path|
      modifies this
      ensures Valid() && path == Select(old(path), Marks(old(mem), old(path), finish), false)
      ensures freed == Select(old(path), Marks(old(mem), old(path), finish), true)
      ensures mem.Keys == old(mem).Keys - Elements(freed)
      ensures FlagsOk(mem, old(mem), path, FinishedBy(finish, |finish|))
    {
      ghost var all, was, marks := path, mem, Marks(mem, path, finish);
      ghost var kept: seq<Ptr> := [];
      freed := [];
      var info, k := first, 0;
      WalkedStart(all, was, first);
      while info != NULL
        invariant 0 <= k <= |all|
        invariant Walked(kept, all[k..], was, FinishedBy(finish, k), first, info, mem, freed)
        invariant kept == Select(all[..k], marks[..k], false) && freed == Select(all[..k], marks[..k], true)
        decreases |all| - k
      {
        assert k < |all| && info == all[k];
        MarkAt(all, was, finish, k);
        SelectSnoc(all, marks, k, false);
        SelectSnoc(all, marks, k, true);
        assert all[k..][1..] == all[k + 1..];
        var done;
        info, freed, done := Visit(info, finish[k], freed, kept, all[k..], was, FinishedBy(finish, k));
        kept := if done then kept else kept + [all[k]];
        k := k + 1;
      }
      assert k == |all| && all[..k] == all && marks[..k] == marks;
      path := kept;
      assert kept + [] == kept;
    }

    /** One node of the walk: some threads finish, the node's successor is read, its
        flag is looked at, and a finished thread is taken out and freed. */
    method Visit(info: Ptr, threads: set<Ptr>, freed: seq<Ptr>,
                 ghost kept: seq<Ptr>, ghost rest: seq<Ptr>, ghost was: Nodes, ghost finished: set<Ptr>)
        returns (tmp: Ptr, freed': seq<Ptr>, done: bool)
      requires rest != [] && rest[0] == info
      requires Walked(kept, rest, was, finished, first, info, mem, freed)
      modifies this`first, this`mem
      ensures done <==> (info in was && was[info].complete) || info in finished || info in threads
      ensures freed' == if done then freed + [info] else freed
      ensures Walked(if done then kept else kept + [info], rest[1..], was, finished + threads, first, tmp, mem, freed')
    {
      ghost var before := mem;
      mem := Complete(mem, threads);
      SegFrame(before, mem, first, kept, info);
      SegFrame(before, mem, info, rest, NULL);
      tmp := mem[info].next;
      done := mem[info].complete;
      freed' := freed;
      if done {
        Remove(info, kept, rest);
        Free(info, kept, rest);
        freed' := freed + [info];
      } else {
        SegJoin(mem, first, kept, info, [info], tmp);
      }
      DistinctNext(kept, rest);
      FlagsNext(before, was, kept, rest, finished, threads, mem);
    }

    /** free: a node nobody points to leaves memory. */
    method Free(info: Ptr, ghost kept: seq<Ptr>, ghost rest: seq<Ptr>)
      requires info in mem && Distinct(kept + rest) && rest != [] && rest[0] == info
      requires Seg(mem, first, kept, mem[info].next) && Seg(mem, mem[info].next, rest[1..], NULL)
      modifies this`mem
      ensures mem == old(mem) - {info}
      ensures Seg(mem, first, kept, old(mem)[info].next) && Seg(mem, old(mem)[info].next, rest[1..], NULL)
    {
      DistinctAppend(kept, rest, info);
      SegFrame(mem, mem - {info}, first, kept, mem[info].next);
      SegFrame(mem, mem - {info}, mem[info].next, rest[1..], NULL);
      mem := mem - {info};
    }

    /** The node whose `next` is info. */
    method FindBefore(info: Ptr, ghost kept: seq<Ptr>, ghost rest: seq<Ptr>) returns (cur: Ptr)
      requires Distinct(kept + rest) && rest != [] && rest[0] == info && first != info
      requires Seg(mem, first, kept, info)
      ensures kept != [] && cur == kept[|kept| - 1] && cur in mem && mem[cur].next == info
    {
      cur := first;
      ghost var left := kept;
      while mem[cur].next != info
        invariant left != [] && |left| <= |kept| && left == kept[|kept| - |left|..]
        invariant Seg(mem, cur, left, info)
        decreases |left|
      {
        cur := mem[cur].next;
        left := left[1..];
      }
      StopsAtLast(mem, cur, left, kept, rest);
    }
  }

  /** The head is the node itself only if nothing was kept before it. */
  lemma OnlyEmpty(mem: Nodes, first: Ptr, kept: seq<Ptr>, rest: seq<Ptr>)
    requires Distinct(kept + rest) && rest != [] && Seg(mem, first, kept, rest[0]) && first == rest[0]
    ensures kept == []
  {
    DistinctAppend(kept, rest, first);
  }

  /** A node whose `next` is the first of the rest is the last one kept. */
  lemma StopsAtLast(mem: Nodes, cur: Ptr, left: seq<Ptr>, kept: seq<Ptr>, rest: seq<Ptr>)
    requires Distinct(kept + rest) && rest != [] && 0 < |left| <= |kept| && left == kept[|kept| - |left|..]
    requires Seg(mem, cur, left, rest[0]) && mem[cur].next == rest[0]
    ensures |left| == 1
  {
    DistinctAppend(kept, rest, rest[0]);
  }

  // ---- The state of the walk ----------------------------------------------------------------

  /** In the middle of the walk: the nodes kept so far lead from the head to `info`,
      the rest lead on to the end, the freed ones are gone from memory, and the flags
      of all that are left are on as far as their threads were complete or have finished. */
  ghost predicate Walked(kept: seq<Ptr>, rest: seq<Ptr>, was: Nodes, finished: set<Ptr>,
                         first: Ptr, info: Ptr, mem: Nodes, freed: seq<Ptr>)
  {
    && Distinct(kept + rest)
    && Seg(mem, first, kept, info)
    && Seg(mem, info, rest, NULL)
    && mem.Keys == was.Keys - Elements(freed)
    && FlagsOk(mem, was, kept + rest, finished)
  }

  ghost function Elements(path: seq<Ptr>): set<Ptr> {
    set x | x in path
  }

  ghost predicate FlagsOk(mem: Nodes, was: Nodes, left: seq<Ptr>, finished: set<Ptr>) {
    forall x :: x in left && x in mem ==>
      (mem[x].complete <==> (x in was && was[x].complete) || x in finished)
  }

  /** Moving on by one node, with it or without it. */
  lemma {:induction false} DistinctNext(kept: seq<Ptr>, rest: seq<Ptr>)
    requires Distinct(kept + rest) && rest != []
    ensures Distinct(kept + rest[1..]) && Distinct(kept + [rest[0]] + rest[1..])
  {
    assert kept + [rest[0]] + rest[1..] == kept + rest;
    if kept == [] {
      assert kept + rest == rest && kept + rest[1..] == rest[1..];
    } else {
      assert (kept + rest)[1..] == kept[1..] + rest;
      DistinctNext(kept[1..], rest);
      assert (kept + rest[1..])[1..] == kept[1..] + rest[1..];
      assert forall x :: x in kept[1..] + rest[1..] ==> x in kept[1..] + rest;
    }
  }

  lemma WalkedStart(all: seq<Ptr>, was: Nodes, first: Ptr)
    requires Distinct(all) && Seg(was, first, all, NULL)
    ensures Walked([], all[0..], was, {}, first, first, was, [])
  {
    assert all[0..] == all && [] + all == all;
  }

  lemma MarkAt(all: seq<Ptr>, was: Nodes, finish: seq<set<Ptr>>, k: nat)
    requires |all| == |finish| && k < |all|
    ensures Marks(was, all, finish)[k]
       <==> (all[k] in was && was[all[k]].complete) || all[k] in FinishedBy(finish, k) || all[k] in finish[k]
  {
  }

  lemma FlagsNext(before: Nodes, was: Nodes, kept: seq<Ptr>, rest: seq<Ptr>, finished: set<Ptr>, threads: set<Ptr>,
                  mem': Nodes)
    requires rest != [] && FlagsOk(before, was, kept + rest, finished) && mem'.Keys <= before.Keys
    requires forall x :: x in mem' ==> mem'[x].complete == Complete(before, threads)[x].complete
    ensures FlagsOk(mem', was, kept + rest[1..], finished + threads)
    ensures FlagsOk(mem', was, kept + [rest[0]] + rest[1..], finished + threads)
  {
    assert rest == [rest[0]] + rest[1..];
  }
}
