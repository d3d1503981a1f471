/** The thread list over every run of the accept loop: nodes are inserted and walks prune
    the list, in any order, while threads finish at any time. */
module ThreadRuns {
  import opened Pointers
  import opened ThreadList

  /** The list, the threads whose flag is on, and every node freed so far. */
  datatype Threads = Threads(path: seq<Ptr>, on: set<Ptr>, freed: seq<Ptr>)

  datatype Act =
    | Insert(p: Ptr, complete: bool)
    | Walk(finish: seq<set<Ptr>>)      // who finishes before the k-th node is looked at

  /** Which nodes a walk finds complete. */
  ghost function Found(t: Threads, finish: seq<set<Ptr>>): (r: seq<bool>)
    requires |finish| == |t.path|
    ensures |r| == |t.path|
  {
    seq(|t.path|, k requires 0 <= k < |t.path| => t.path[k] in t.on || t.path[k] in FinishedBy(finish, k + 1))
  }

  /** A new node has an address of its own. */
  ghost predicate Possible(t: Threads, a: Act) {
    match a
    case Insert(p, _) => p != NULL && p !in t.path
    case Walk(finish) => |finish| == |t.path|
  }

  ghost function Do(t: Threads, a: Act): Threads
    requires Possible(t, a)
  {
    match a
    case Insert(p, complete) => Threads([p] + t.path, if complete then t.on + {p} else t.on - {p}, t.freed)
    case Walk(finish) =>
      var found := Found(t, finish);
      Threads(Select(t.path, found, false), t.on + FinishedBy(finish, |finish|), t.freed + Select(t.path, found, true))
  }

  ghost predicate Legal(t: Threads, acts: seq<Act>) {
    acts == [] || (Legal(t, acts[..|acts| - 1]) && Possible(Serve(t, acts[..|acts| - 1]), acts[|acts| - 1]))
  }

  ghost function Serve(t: Threads, acts: seq<Act>): Threads {
    if acts == [] then t
    else
      var m := Serve(t, acts[..|acts| - 1]);
      if Possible(m, acts[|acts| - 1]) then Do(m, acts[|acts| - 1]) else m
  }

  /** The nodes inserted, in order. */
  function Inserted(acts: seq<Act>): seq<Ptr> {
    if acts == [] then []
    else Inserted(acts[..|acts| - 1]) + if acts[|acts| - 1].Insert? then [acts[|acts| - 1].p] else []
  }

  // ---- Conservation --------------------------------------------------------------------------

  lemma {:induction false} SelectCounts(path: seq<Ptr>, marks: seq<bool>)
    requires |marks| == |path|
    ensures multiset(Select(path, marks, true)) + multiset(Select(path, marks, false)) == multiset(path)
  {
    if path != [] {
      var n := |path| - 1;
      SelectCounts(path[..n], marks[..n]);
      assert path == path[..n] + [path[n]];
    }
  }

  lemma {:induction false} DistinctCons(p: Ptr, path: seq<Ptr>)
    requires Distinct(path) && p !in path
    ensures Distinct([p] + path)
  {
    assert ([p] + path)[1..] == path;
  }

  lemma DoConserves(t: Threads, a: Act)
    requires Possible(t, a) && Distinct(t.path)
    ensures var e := Do(t, a);
            && Distinct(e.path)
            && multiset(e.freed) + multiset(e.path)
               == multiset(t.freed) + multiset(t.path) + multiset(if a.Insert? then [a.p] else [])
  {
    match a
    case Insert(p, _) =>
      DistinctCons(p, t.path);
    case Walk(finish) =>
      SelectDistinct(t.path, Found(t, finish), false);
      SelectCounts(t.path, Found(t, finish));
  }

  /** Over every run nobody is lost, and nobody is freed more often than inserted: the
      nodes freed and the nodes in the list are together the nodes ever inserted. */
  lemma {:induction false} NobodyLost(t: Threads, acts: seq<Act>)
    requires Legal(t, acts) && Distinct(t.path)
    ensures var e := Serve(t, acts);
            && Distinct(e.path)
            && multiset(e.freed) + multiset(e.path) == multiset(t.freed) + multiset(t.path) + multiset(Inserted(acts))
  {
    if acts != [] {
      NobodyLost(t, acts[..|acts| - 1]);
      DoConserves(Serve(t, acts[..|acts| - 1]), acts[|acts| - 1]);
    }
  }

  // ---- When a node is freed --------------------------------------------------------------------

  /** This act is a walk that finds node p in the list with its flag on. */
  ghost predicate Finds(t: Threads, a: Act, p: Ptr)
    requires Possible(t, a)
  {
    a.Walk? && exists k :: 0 <= k < |t.path| && t.path[k] == p && Found(t, a.finish)[k]
  }

  ghost predicate NeverFound(t: Threads, acts: seq<Act>, p: Ptr)
    requires Legal(t, acts)
  {
    acts == [] ||
    (var front := acts[..|acts| - 1];
     NeverFound(t, front, p) && !Finds(Serve(t, front), acts[|acts| - 1], p))
  }

  /** One act on a node in the list: a walk that finds it complete takes it out and frees
      it once; anything else leaves it there. */
  lemma DoFrees(t: Threads, a: Act, p: Ptr)
    requires Possible(t, a) && Distinct(t.path) && p in t.path
    ensures var e := Do(t, a);
            && (p in e.path <==> !Finds(t, a, p))
            && multiset(e.freed)[p] == multiset(t.freed)[p] + if Finds(t, a, p) then 1 else 0
  {
    match a
    case Insert(_, _) =>
    case Walk(finish) =>
      var k :| 0 <= k < |t.path| && t.path[k] == p;
      OnlyPlace(t.path, k);
      WalkFrees(t, finish, k);
  }

  lemma WalkFrees(t: Threads, finish: seq<set<Ptr>>, k: nat)
    requires |finish| == |t.path| && Distinct(t.path) && k < |t.path|
    ensures var (e, p, found) := (Do(t, Walk(finish)), t.path[k], Found(t, finish)[k]);
            && (p in e.path <==> !found)
            && multiset(e.freed)[p] == multiset(t.freed)[p] + if found then 1 else 0
  {
    var marks := Found(t, finish);
    SelectSound(t.path, marks, k);
    DistinctOnce(Select(t.path, marks, true), t.path[k]);
  }

  lemma {:induction false} DistinctOnce(path: seq<Ptr>, p: Ptr)
    requires Distinct(path)
    ensures multiset(path)[p] == if p in path then 1 else 0
  {
    if path != [] {
      DistinctOnce(path[1..], p);
      assert path == [path[0]] + path[1..];
    }
  }

  lemma {:induction false} OnlyPlace(path: seq<Ptr>, k: nat)
    requires Distinct(path) && k < |path|
    ensures forall j :: 0 <= j < |path| && path[j] == path[k] ==> j == k
  {
    if path != [] {
      if 0 < k { OnlyPlace(path[1..], k - 1); }
      forall j: nat | j < |path| && path[j] == path[k]
        ensures j == k
      {
        if 0 < j && 0 < k { assert path[1..][j - 1] == path[1..][k - 1]; }
      }
    }
  }

  /** A node stays in the list, and is not freed, until a walk finds its flag on. */
  lemma {:induction false} StaysUntilFound(t: Threads, acts: seq<Act>, p: Ptr)
    requires Legal(t, acts) && Distinct(t.path) && p in t.path && NeverFound(t, acts, p)
    ensures var e := Serve(t, acts);
            Distinct(e.path) && p in e.path && multiset(e.freed)[p] == multiset(t.freed)[p]
  {
    if acts != [] {
      var front := acts[..|acts| - 1];
      StaysUntilFound(t, front, p);
      DoConserves(Serve(t, front), acts[|acts| - 1]);
      DoFrees(Serve(t, front), acts[|acts| - 1], p);
    }
  }

  /** Each node is freed exactly once between its insertion and any insertion of another
      node at its address, and by the first walk that finds its thread complete. */
  lemma FreedByFirstWalk(t: Threads, acts: seq<Act>, a: Act, p: Ptr)
    requires Legal(t, acts) && Distinct(t.path) && p in t.path && NeverFound(t, acts, p)
    requires Possible(Serve(t, acts), a)
    ensures var (m, e) := (Serve(t, acts), Do(Serve(t, acts), a));
            && p in m.path && multiset(m.freed)[p] == multiset(t.freed)[p]
            && (Finds(m, a, p) <==> p !in e.path)
            && (Finds(m, a, p) <==> multiset(e.freed)[p] == multiset(t.freed)[p] + 1)
  {
    StaysUntilFound(t, acts, p);
    DoFrees(Serve(t, acts), a, p);
  }

  // ---- The accept loop ---------------------------------------------------------------------------

  /** A connection accepted: the address of its node, whether its thread is over before the
      node is inserted, and who finishes during the walk that follows. */
  datatype Arrival = Arrival(p: Ptr, complete: bool, finish: seq<set<Ptr>>)

  function Acts(arrivals: seq<Arrival>): seq<Act> {
    if arrivals == [] then []
    else
      var a := arrivals[|arrivals| - 1];
      Acts(arrivals[..|arrivals| - 1]) + [Insert(a.p, a.complete), Walk(a.finish)]
  }

  /** The list in memory is this state of the run. */
  ghost predicate Shows(mem: Nodes, path: seq<Ptr>, freed: seq<Ptr>, t: Threads) {
    && path == t.path && freed == t.freed && mem.Keys == Elements(path)
    && forall x :: x in path && x in mem ==> (mem[x].complete <==> x in t.on)
  }

  lemma ActsSnoc(t: Threads, arrivals: seq<Arrival>, a: Arrival)
    requires Legal(t, Acts(arrivals + [a]))
    ensures var m := Serve(t, Acts(arrivals));
            && Legal(t, Acts(arrivals))
            && Possible(m, Insert(a.p, a.complete))
            && Possible(Do(m, Insert(a.p, a.complete)), Walk(a.finish))
            && Serve(t, Acts(arrivals + [a])) == Do(Do(m, Insert(a.p, a.complete)), Walk(a.finish))
  {
    assert (arrivals + [a])[..|arrivals|] == arrivals;
    var front, all := Acts(arrivals), Acts(arrivals + [a]);
    assert all[..|all| - 1] == front + [Insert(a.p, a.complete)];
    assert (front + [Insert(a.p, a.complete)])[..|front|] == front;
  }

  /** Every connection accepted prunes the list: a node whose flag is on when its walk
      begins, the new one included, is freed by that walk. */
  lemma ArrivalPrunes(t: Threads, arrivals: seq<Arrival>, a: Arrival, p: Ptr)
    requires Legal(t, Acts(arrivals + [a])) && Distinct(t.path)
    requires Legal(t, Acts(arrivals))
    requires var m := Serve(t, Acts(arrivals)); if p == a.p then a.complete else p in m.path && p in m.on
    ensures var (m, e) := (Serve(t, Acts(arrivals)), Serve(t, Acts(arrivals + [a])));
            p !in e.path && multiset(e.freed)[p] == multiset(m.freed)[p] + 1
  {
    var m := Serve(t, Acts(arrivals));
    ActsSnoc(t, arrivals, a);
    NobodyLost(t, Acts(arrivals));
    DoConserves(m, Insert(a.p, a.complete));
    WalkPrunes(Do(m, Insert(a.p, a.complete)), a.finish, p);
  }

  /** One walk over a list with a flagged node. */
  lemma WalkPrunes(t: Threads, finish: seq<set<Ptr>>, p: Ptr)
    requires |finish| == |t.path| && Distinct(t.path) && p in t.path && p in t.on
    ensures var e := Do(t, Walk(finish)); p !in e.path && multiset(e.freed)[p] == multiset(t.freed)[p] + 1
  {
    var k :| 0 <= k < |t.path| && t.path[k] == p;
    WalkFrees(t, finish, k);
  }

  lemma {:induction false} LegalPrefix(t: Threads, arrivals: seq<Arrival>, k: nat)
    requires k <= |arrivals| && Legal(t, Acts(arrivals))
    ensures Legal(t, Acts(arrivals[..k]))
    decreases |arrivals|
  {
    if k == |arrivals| {
      assert arrivals[..k] == arrivals;
    } else {
      var n := |arrivals| - 1;
      assert arrivals == arrivals[..n] + [arrivals[n]];
      ActsSnoc(t, arrivals[..n], arrivals[n]);
      LegalPrefix(t, arrivals[..n], k);
      assert arrivals[..n][..k] == arrivals[..k];
    }
  }

  lemma ShowsInsert(mem: Nodes, path: seq<Ptr>, freed: seq<Ptr>, t: Threads, p: Ptr, complete: bool, next: Ptr)
    requires Shows(mem, path, freed, t) && Possible(t, Insert(p, complete))
    ensures p !in mem
    ensures Shows(mem[p := Node(complete, next)], [p] + path, freed, Do(t, Insert(p, complete)))
  {
    assert mem[p := Node(complete, next)].Keys == Elements([p] + path);
  }

  lemma ShowsWalk(mem: Nodes, path: seq<Ptr>, freed: seq<Ptr>, t: Threads, finish: seq<set<Ptr>>,
                  mem': Nodes, more: seq<Ptr>)
    requires Shows(mem, path, freed, t) && Possible(t, Walk(finish)) && Distinct(path)
    requires more == Select(path, Marks(mem, path, finish), true) && mem'.Keys == mem.Keys - Elements(more)
    requires FlagsOk(mem', mem, Select(path, Marks(mem, path, finish), false), FinishedBy(finish, |finish|))
    ensures Shows(mem', Select(path, Marks(mem, path, finish), false), freed + more, Do(t, Walk(finish)))
  {
    var marks := Marks(mem, path, finish);
    assert marks == Found(t, finish);
    var kept := Select(path, marks, false);
    forall x: Ptr
      ensures x in kept <==> x in path && x !in more
    {
      SelectPartition(path, marks, x);
      if x in path {
        var k :| 0 <= k < |path| && path[k] == x;
        SelectSound(path, marks, k);
      }
    }
    assert mem'.Keys == Elements(kept);
  }

  /** The accept loop: for every connection a node is inserted and the list is pruned. */
  method AcceptLoop(list: List, arrivals: seq<Arrival>, ghost t: Threads) returns (freed: seq<Ptr>)
    requires list.Valid() && Shows(list.mem, list.path, [], t) && Legal(t, Acts(arrivals))
    modifies list
    ensures list.Valid() && Shows(list.mem, list.path, freed, Serve(t, Acts(arrivals)))
  {
    freed := [];
    var i := 0;
    while i < |arrivals|
      invariant 0 <= i <= |arrivals|
      invariant list.Valid() && Shows(list.mem, list.path, freed, Serve(t, Acts(arrivals[..i])))
    {
      var a := arrivals[i];
      assert arrivals[..i + 1] == arrivals[..i] + [a];
      LegalPrefix(t, arrivals, i + 1);
      ActsSnoc(t, arrivals[..i], a);
      ghost var m := Serve(t, Acts(arrivals[..i]));
      ShowsInsert(list.mem, list.path, freed, m, a.p, a.complete, list.first);
      list.InsertHead(a.p, a.complete);
      ghost var mem, path := list.mem, list.path;
      var more := list.Cleanup(a.finish);
      ShowsWalk(mem, path, freed, Do(m, Insert(a.p, a.complete)), a.finish, list.mem, more);
      freed := freed + more;
      i := i + 1;
    }
    assert arrivals[..i] == arrivals;
  }
}
