/**
 * The pure side of the path engine of server_src/graph.py: weighted
 * adjacency maps, paths and their weights, the (distance, id) order in
 * which Python's PriorityQueue hands out entries, and the invariants of
 * the lazy-deletion Dijkstra search that `Graph.sssp` runs, with the
 * lemmas that carry them from one step of the search to the next.
 */
module PathSearch {
  import opened Wrappers

  /** `adj`: node id -> neighbour id -> edge weight. */
  type Adj = map<string, map<string, real>>

  /** A tentative distance: a real, or Python's `float('inf')`. */
  datatype Cost = Fin(v: real) | Inf

  /** `c < d` where `d` may be infinite. */
  predicate Below(c: real, d: Cost) {
    d.Inf? || c < d.v
  }

  ghost predicate NonNegative(A: Adj) {
    forall u, v :: u in A && v in A[u] ==> A[u][v] >= 0.0
  }

  /** Every row only names nodes that have a row. */
  ghost predicate Closed(A: Adj) {
    forall u :: u in A ==> A[u].Keys <= A.Keys
  }

  // ------------------------------------------------------------ paths

  /** A walk along adjacency entries: consecutive nodes are neighbours. */
  ghost predicate IsPath(A: Adj, path: seq<string>) {
    && |path| >= 1
    && path[0] in A
    && forall i :: 0 <= i < |path| - 1 ==> path[i] in A && path[i + 1] in A[path[i]]
  }

  ghost function PathWeight(A: Adj, path: seq<string>): real
    requires IsPath(A, path)
  {
    if |path| == 1 then 0.0
    else
      assert IsPath(A, path[..|path| - 1]);
      PathWeight(A, path[..|path| - 1]) + A[path[|path| - 2]][path[|path| - 1]]
  }

  /** Every edge leaving a reached node reaches a node whose distance it does not improve. */
  ghost predicate Relaxed(A: Adj, D: map<string, Cost>) {
    forall x, y :: x in A && y in A[x] && x in D && D[x].Fin? ==>
      y in D && D[y].Fin? && D[y].v <= D[x].v + A[x][y]
  }

  /** Every neighbour of a reached node is reached. */
  ghost predicate ReachClosed(A: Adj, D: map<string, Cost>) {
    forall x, y :: x in A && y in A[x] && x in D && D[x].Fin? ==> y in D && D[y].Fin?
  }

  /** With relaxed distances and `D[src] == 0`, no path from `src` is shorter than the distance of its end. */
  lemma {:induction false} RelaxedBoundsPaths(A: Adj, D: map<string, Cost>, src: string, path: seq<string>)
    requires Relaxed(A, D) && src in D && D[src] == Fin(0.0)
    requires IsPath(A, path) && path[0] == src
    ensures path[|path| - 1] in D && D[path[|path| - 1]].Fin?
    ensures D[path[|path| - 1]].v <= PathWeight(A, path)
  {
    if |path| > 1 {
      var front := path[..|path| - 1];
      assert IsPath(A, front);
      RelaxedBoundsPaths(A, D, src, front);
      var x, y := path[|path| - 2], path[|path| - 1];
      assert x in A && y in A[x];
    }
  }

  /** Every path from a reached node ends at a reached node. */
  lemma {:induction false} ClosedReach(A: Adj, D: map<string, Cost>, path: seq<string>)
    requires ReachClosed(A, D) && IsPath(A, path) && path[0] in D && D[path[0]].Fin?
    ensures path[|path| - 1] in D && D[path[|path| - 1]].Fin?
  {
    if |path| > 1 {
      var front := path[..|path| - 1];
      assert IsPath(A, front);
      ClosedReach(A, D, front);
      assert path[|path| - 2] in A && path[|path| - 1] in A[path[|path| - 2]];
    }
  }

  // ------------------------------------------------------- parent trees

  /** Parent pointers lead, by strictly decreasing rank, to a parentless node. */
  ghost predicate RankedForest(P: map<string, Option<string>>, rank: map<string, nat>) {
    forall n {:trigger P[n]} :: n in P ==>
      && n in rank
      && (P[n].Some? ==> P[n].value in P && P[n].value in rank && rank[P[n].value] < rank[n])
  }

  /** `path` starts at a parentless node and each later node's parent is its predecessor. */
  ghost predicate ParentChain(P: map<string, Option<string>>, path: seq<string>) {
    && |path| >= 1
    && path[0] in P && P[path[0]] == None
    && forall i :: 1 <= i < |path| ==> path[i] in P && P[path[i]] == Some(path[i - 1])
  }

  /** Every tree edge is an adjacency entry and is tight: `D[n] == D[p] + adj[p][n]`. */
  ghost predicate TreeEdgesTight(A: Adj, src: string, D: map<string, Cost>, P: map<string, Option<string>>) {
    forall n {:trigger P[n]} :: n in P && n != src ==>
      && P[n].Some? && P[n].value in A && n in A[P[n].value]
      && P[n].value in D && D[P[n].value].Fin? && n in D
      && D[n] == Fin(D[P[n].value].v + A[P[n].value][n])
  }

  /**
   * What `sssp(src)` returns: `dist` has a key per node; `dist[src] == 0`
   * and `parent[src] is None`; a node has a parent entry iff its distance
   * is finite; tree edges are tight and acyclic; the reached nodes are
   * closed under adjacency; and with non-negative weights every edge is
   * relaxed.
   */
  ghost predicate IsShortestPathTree(A: Adj, src: string, D: map<string, Cost>,
                                     P: map<string, Option<string>>, rank: map<string, nat>)
  {
    && D.Keys == A.Keys && src in A
    && D[src] == Fin(0.0) && src in P && P[src] == None
    && P.Keys <= A.Keys
    && (forall n :: n in A ==> (n in P <==> D[n].Fin?))
    && TreeEdgesTight(A, src, D, P)
    && RankedForest(P, rank)
    && ReachClosed(A, D)
    && (NonNegative(A) ==> Relaxed(A, D))
  }

  /** The parent chain ending at `t` is a path from `src` whose weight is `dist[t]`. */
  lemma {:induction false} TreePathWeight(A: Adj, src: string, D: map<string, Cost>,
                                          P: map<string, Option<string>>, rank: map<string, nat>,
                                          path: seq<string>)
    requires IsShortestPathTree(A, src, D, P, rank)
    requires ParentChain(P, path)
    ensures IsPath(A, path) && path[0] == src
    ensures path[|path| - 1] in D && D[path[|path| - 1]].Fin?
    ensures PathWeight(A, path) == D[path[|path| - 1]].v
  {
    if |path| == 1 {
      assert path[0] == src;
    } else {
      var front := path[..|path| - 1];
      assert ParentChain(P, front);
      TreePathWeight(A, src, D, P, rank, front);
      var p, n := path[|path| - 2], path[|path| - 1];
      assert n in P && P[n] == Some(p);
      assert n != src;
      assert IsPath(A, path) by {
        forall i | 0 <= i < |path| - 1
          ensures path[i] in A && path[i + 1] in A[path[i]]
        {
          if i < |path| - 2 {
            assert front[i] == path[i] && front[i + 1] == path[i + 1];
          }
        }
      }
    }
  }

  /**
   * The doc-comment promise of `sssp`: with non-negative weights, the
   * distance of every node is the least weight of a path from `src` to
   * it, and a node is reached iff some path leads to it.
   */
  lemma ShortestDistances(A: Adj, src: string, D: map<string, Cost>,
                          P: map<string, Option<string>>, rank: map<string, nat>, t: string)
    requires IsShortestPathTree(A, src, D, P, rank)
    requires t in A
    ensures (exists path :: IsPath(A, path) && path[0] == src && path[|path| - 1] == t) <==> D[t].Fin?
    ensures NonNegative(A) ==>
      forall path :: IsPath(A, path) && path[0] == src && path[|path| - 1] == t ==>
        D[t].Fin? && D[t].v <= PathWeight(A, path)
  {
    if D[t].Fin? {
      var chain := ChainTo(P, rank, t);
      TreePathWeight(A, src, D, P, rank, chain);
    }
    forall path | IsPath(A, path) && path[0] == src && path[|path| - 1] == t
      ensures D[t].Fin?
    {
      ClosedReach(A, D, path);
    }
    if NonNegative(A) {
      forall path | IsPath(A, path) && path[0] == src && path[|path| - 1] == t
        ensures D[t].Fin? && D[t].v <= PathWeight(A, path)
      {
        RelaxedBoundsPaths(A, D, src, path);
      }
    }
  }

  /** A path that starts at `src` and ends in the target set `T`. */
  ghost predicate PathInto(A: Adj, src: string, T: set<string>, path: seq<string>) {
    IsPath(A, path) && path[0] == src && path[|path| - 1] in T
  }

  /** Some node of `T` is reached by the search iff some path from `src` ends in `T`. */
  lemma TargetsReached(A: Adj, src: string, D: map<string, Cost>,
                       P: map<string, Option<string>>, rank: map<string, nat>, T: set<string>)
    requires IsShortestPathTree(A, src, D, P, rank) && T <= A.Keys
    ensures (exists t :: t in T && D[t].Fin?) <==> exists path :: PathInto(A, src, T, path)
  {
    if exists t :: t in T && D[t].Fin? {
      var t :| t in T && D[t].Fin?;
      ShortestDistances(A, src, D, P, rank, t);
      var path :| IsPath(A, path) && path[0] == src && path[|path| - 1] == t;
      assert PathInto(A, src, T, path);
    }
    if exists path :: PathInto(A, src, T, path) {
      var path :| PathInto(A, src, T, path);
      ShortestDistances(A, src, D, P, rank, path[|path| - 1]);
    }
  }

  /**
   * With non-negative weights, a node of `T` whose distance is least among
   * the nodes of `T` is at most as far as any path from `src` into `T`.
   */
  lemma NearestTarget(A: Adj, src: string, D: map<string, Cost>,
                      P: map<string, Option<string>>, rank: map<string, nat>, T: set<string>, t: string)
    requires IsShortestPathTree(A, src, D, P, rank) && T <= A.Keys
    requires t in T && D[t].Fin? && NonNegative(A)
    requires forall x :: x in T && D[x].Fin? ==> D[t].v <= D[x].v
    ensures forall path :: PathInto(A, src, T, path) ==> D[t].v <= PathWeight(A, path)
  {
    forall path | PathInto(A, src, T, path)
      ensures D[t].v <= PathWeight(A, path)
    {
      ShortestDistances(A, src, D, P, rank, path[|path| - 1]);
    }
  }

  /** Following parents from any node of a ranked forest ends at a parentless node. */
  lemma {:induction false} ChainTo(P: map<string, Option<string>>, rank: map<string, nat>, t: string)
    returns (chain: seq<string>)
    requires RankedForest(P, rank) && t in P
    ensures ParentChain(P, chain) && chain[|chain| - 1] == t
    decreases rank[t]
  {
    if P[t].None? {
      chain := [t];
    } else {
      var front := ChainTo(P, rank, P[t].value);
      chain := front + [t];
      assert forall i :: 0 <= i < |front| ==> chain[i] == front[i];
    }
  }

  // ------------------------------------------- the priority queue order

  /** Python's `<=` on strings: lexicographic by code point, a prefix first. */
  predicate StrLe(a: string, b: string) {
    if |a| == 0 then true
    else if |b| == 0 then false
    else if a[0] < b[0] then true
    else if a[0] == b[0] then StrLe(a[1..], b[1..])
    else false
  }

  lemma {:induction false} StrLeTotal(a: string, b: string)
    ensures StrLe(a, b) || StrLe(b, a)
  {
    if |a| > 0 && |b| > 0 && a[0] == b[0] {
      StrLeTotal(a[1..], b[1..]);
    }
  }

  lemma {:induction false} StrLeTrans(a: string, b: string, c: string)
    requires StrLe(a, b) && StrLe(b, c)
    ensures StrLe(a, c)
  {
    if |a| > 0 && |b| > 0 && |c| > 0 && a[0] == b[0] && b[0] == c[0] {
      StrLeTrans(a[1..], b[1..], c[1..]);
    }
  }

  /** A queue entry `(distance, node id)`, compared as a Python tuple. */
  datatype Entry = Entry(d: real, id: string)

  predicate EntryLe(a: Entry, b: Entry) {
    a.d < b.d || (a.d == b.d && StrLe(a.id, b.id))
  }

  /**
   * The queue's contents. A set suffices: an entry is pushed only when it
   * lowers its node's distance, and every entry of that node already
   * queued is at least the old distance, so no entry is ever pushed twice.
   */
  type Queue = set<Entry>

  predicate IsMinEntry(e: Entry, pq: Queue) {
    e in pq && forall x :: x in pq ==> EntryLe(e, x)
  }

  /** A non-empty queue has an entry that `get()` can hand out: one no greater than any other. */
  lemma {:induction false} MinEntryExists(pq: Queue)
    requires |pq| > 0
    ensures exists e :: IsMinEntry(e, pq)
    decreases |pq|
  {
    var x :| x in pq;
    var rest := pq - {x};
    if |rest| == 0 {
      assert pq == {x};
      StrLeTotal(x.id, x.id);
      assert IsMinEntry(x, pq);
    } else {
      MinEntryExists(rest);
      var m :| IsMinEntry(m, rest);
      StrLeTotal(m.id, x.id);
      if EntryLe(m, x) {
        assert IsMinEntry(m, pq);
      } else {
        forall y | y in pq ensures EntryLe(x, y) {
          if y != x {
            assert y in rest;
            assert EntryLe(m, y);
            if x.d == m.d && m.d == y.d { StrLeTrans(x.id, m.id, y.id); }
          } else {
            StrLeTotal(x.id, x.id);
          }
        }
        assert IsMinEntry(x, pq);
      }
    }
  }

  // -------------------------------------------- the search's invariants

  /**
   * The variables of the search: `dist`, `parent`, `seen` and the queue,
   * plus ghost bookkeeping: the order in which nodes were first seen, and
   * the distance of the entry popped last.
   */
  datatype Search = Search(D: map<string, Cost>, P: map<string, Option<string>>, seen: set<string>,
                           pq: Queue, rank: map<string, nat>, clock: nat, lo: real)

  /** The frame of the search: which keys exist where. */
  ghost predicate Shape(A: Adj, src: string, s: Search) {
    && Closed(A)
    && s.D.Keys == A.Keys && src in A
    && s.seen <= A.Keys && s.P.Keys <= A.Keys
    && s.D[src] == Fin(0.0) && src in s.P && s.P[src] == None
    && (src in s.seen || (s.seen == {} && s.pq == {Entry(0.0, src)}))
    && (forall n {:trigger s.D[n]} {:trigger n in s.P} :: n in A ==> (n in s.P <==> s.D[n].Fin?))
    && (forall x {:trigger x in s.seen} :: x in s.seen ==> s.D[x].Fin?)
    && s.rank.Keys == s.seen
    && (forall x {:trigger s.rank[x]} :: x in s.rank ==> s.rank[x] < s.clock)
  }

  /** Queue entries are finite and never below their node's distance; every unseen reached node has an exact entry. */
  ghost predicate QueueOk(A: Adj, s: Search) {
    && (forall e {:trigger e in s.pq} :: e in s.pq ==>
          e.id in A && e.id in s.D && s.D[e.id].Fin? && s.D[e.id].v <= e.d)
    && (forall n {:trigger s.D[n]} :: n in A && n !in s.seen && n in s.D && s.D[n].Fin? ==>
          Entry(s.D[n].v, n) in s.pq)
  }

  /** Tree edges point to seen nodes, are tight, and go from earlier-seen to later-seen nodes. */
  ghost predicate TreeOk(A: Adj, src: string, s: Search) {
    && (forall n {:trigger s.P[n]} :: n in s.P && n != src ==> s.P[n].Some? && s.P[n].value in s.seen)
    && TreeEdgesTight(A, src, s.D, s.P)
    && (forall n {:trigger s.P[n]} :: n in s.P && n in s.seen && s.P[n].Some? ==>
          s.P[n].value in s.rank && n in s.rank && s.rank[s.P[n].value] < s.rank[n])
  }

  /**
   * Edges from seen nodes are relaxed: towards unseen nodes always, towards
   * seen nodes when weights are non-negative; the edges from `u` to the
   * nodes of `pending` are not yet due.
   */
  ghost predicate RelaxOk(A: Adj, s: Search, u: string, pending: set<string>) {
    forall x, n {:trigger A[x][n]} {:trigger n in A[x]} ::
      x in s.seen && x in A && n in A[x] && (n !in s.seen || NonNegative(A)) && !(x == u && n in pending) ==>
        x in s.D && n in s.D && s.D[x].Fin? && s.D[n].Fin? && s.D[n].v <= s.D[x].v + A[x][n]
  }

  /** With non-negative weights, `lo` separates the seen nodes from the queue entries. */
  ghost predicate MonoOk(A: Adj, s: Search) {
    NonNegative(A) ==>
      && (forall x {:trigger x in s.seen} :: x in s.seen && x in s.D && s.D[x].Fin? ==> s.D[x].v <= s.lo)
      && (forall e {:trigger e in s.pq} :: e in s.pq ==> s.lo <= e.d)
  }

  /** The invariant of the outer loop of `sssp`. */
  ghost predicate SearchInv(A: Adj, src: string, s: Search) {
    Shape(A, src, s) && QueueOk(A, s) && TreeOk(A, src, s) && RelaxOk(A, s, src, {}) && MonoOk(A, s)
  }

  /** The variables before the first `get()`: only `src` is reached, with distance 0. */
  lemma InitialSearch(A: Adj, src: string, D: map<string, Cost>)
    requires Closed(A) && src in A
    requires D.Keys == A.Keys && D[src] == Fin(0.0)
    requires forall n :: n in D && n != src ==> D[n] == Inf
    ensures SearchInv(A, src, Search(D, map[src := None], {}, {Entry(0.0, src)}, map[], 0, 0.0))
  {
  }

  // ---------------------------------------------------------- one pop

  /** The variables right after `get()` returned `e` and its node was marked seen. */
  ghost function AfterPop(s: Search, e: Entry): Search {
    var u := e.id;
    Search(s.D, s.P, s.seen + {u}, s.pq - {e},
           if u in s.seen then s.rank else s.rank[u := s.clock],
           if u in s.seen then s.clock else s.clock + 1,
           e.d)
  }

  lemma PopShape(A: Adj, src: string, s: Search, e: Entry)
    requires Shape(A, src, s) && QueueOk(A, s) && IsMinEntry(e, s.pq)
    ensures Shape(A, src, AfterPop(s, e))
  {
    if src !in s.seen {
      assert s.pq == {Entry(0.0, src)};
    }
  }

  lemma PopQueue(A: Adj, s: Search, e: Entry)
    requires QueueOk(A, s) && e in s.pq
    ensures QueueOk(A, AfterPop(s, e))
  {
    var s' := AfterPop(s, e);
    forall n | n in A && n !in s'.seen && n in s'.D && s'.D[n].Fin?
      ensures Entry(s'.D[n].v, n) in s'.pq
    {
      assert Entry(s.D[n].v, n) in s.pq;
      assert Entry(s.D[n].v, n) != e;
    }
  }

  lemma PopTree(A: Adj, src: string, s: Search, e: Entry)
    requires Shape(A, src, s) && TreeOk(A, src, s)
    ensures TreeOk(A, src, AfterPop(s, e))
  {
    var s' := AfterPop(s, e);
    forall n | n in s'.P && n in s'.seen && s'.P[n].Some?
      ensures s'.P[n].value in s'.rank && n in s'.rank && s'.rank[s'.P[n].value] < s'.rank[n]
    {
      if n == e.id && n !in s.seen {
        assert s.P[n].value in s.seen;
      }
    }
  }

  lemma PopRelax(A: Adj, src: string, s: Search, e: Entry)
    requires RelaxOk(A, s, src, {}) && e.id in A
    ensures RelaxOk(A, AfterPop(s, e), e.id, if e.id in s.seen then {} else A[e.id].Keys)
  {
  }

  lemma PopMono(A: Adj, s: Search, e: Entry)
    requires MonoOk(A, s) && QueueOk(A, s) && IsMinEntry(e, s.pq)
    ensures MonoOk(A, AfterPop(s, e))
  {
    var s' := AfterPop(s, e);
    if NonNegative(A) {
      forall e' | e' in s'.pq ensures s'.lo <= e'.d {
        assert e' in s.pq;
        assert EntryLe(e, e');
      }
    }
  }

  /** A node popped for the first time carries its exact distance, which becomes `lo`. */
  lemma PopFresh(A: Adj, s: Search, e: Entry)
    requires QueueOk(A, s) && IsMinEntry(e, s.pq) && e.id !in s.seen
    ensures s.D[e.id] == Fin(e.d)
  {
    var u := e.id;
    assert Entry(s.D[u].v, u) in s.pq;
    assert EntryLe(e, Entry(s.D[u].v, u));
  }

  // ------------------------------------------ relaxing the popped node's edges

  /** The edge from the seen node `u` lowers the distance of the unseen node `m`. */
  ghost predicate Improves(A: Adj, s: Search, u: string, m: string) {
    && u in A && m in A[u] && m !in s.seen
    && u in s.D && s.D[u].Fin? && m in s.D
    && Below(s.D[u].v + A[u][m], s.D[m])
  }

  ghost function Improved(A: Adj, s: Search, u: string, S: set<string>): set<string> {
    set m | m in S && Improves(A, s, u, m)
  }

  /**
   * The variables once the edges from `u` to the nodes of `S` have been
   * looked at, in any order: each improved node gets the distance through
   * `u`, the parent `u` and a queue entry. Each neighbour is looked at once
   * and `dist[u]` does not change meanwhile, so the order does not matter.
   */
  ghost function AfterRelaxing(A: Adj, s: Search, u: string, S: set<string>): Search {
    var B := Improved(A, s, u, S);
    Search(map m | m in s.D :: if m in B then Fin(s.D[u].v + A[u][m]) else s.D[m],
           map m | m in s.P.Keys + B :: if m in B then Some(u) else s.P[m],
           s.seen,
           s.pq + set m | m in B :: Entry(s.D[u].v + A[u][m], m),
           s.rank, s.clock, s.lo)
  }

  /**
   * `RelaxNext` restated for a loop that holds the relaxed state in its own
   * variables `d`, `p` and `q`.
   */
  lemma RelaxInto(A: Adj, s: Search, u: string, S: set<string>, n: string,
                  d: map<string, Cost>, p: map<string, Option<string>>, q: Queue)
    requires Closed(A) && s.D.Keys == A.Keys
    requires u in s.seen && u in A && s.D[u].Fin? && n in A[u] && n !in S
    requires AfterRelaxing(A, s, u, S) == Search(d, p, s.seen, q, s.rank, s.clock, s.lo)
    ensures u in d && n in d && d[u].Fin?
    ensures AfterRelaxing(A, s, u, S + {n}) ==
      if n !in s.seen && Below(d[u].v + A[u][n], d[n])
      then Search(d[n := Fin(d[u].v + A[u][n])], p[n := Some(u)], s.seen,
                  q + {Entry(d[u].v + A[u][n], n)}, s.rank, s.clock, s.lo)
      else Search(d, p, s.seen, q, s.rank, s.clock, s.lo)
  {
    RelaxNext(A, s, u, S, n);
  }

  /** Before any edge is looked at, nothing has changed. */
  lemma RelaxNone(A: Adj, s: Search, u: string)
    ensures AfterRelaxing(A, s, u, {}) == s
  {
    assert Improved(A, s, u, {}) == {};
    var R := AfterRelaxing(A, s, u, {});
    assert R.D == s.D;
    assert R.P == s.P;
    assert R.pq == s.pq;
  }

  /** What relaxing the row of a popped entry starts from. */
  lemma PopStart(A: Adj, src: string, s: Search, e: Entry)
    requires SearchInv(A, src, s) && e in s.pq
    ensures Closed(A) && AfterPop(s, e).D.Keys == A.Keys
    ensures e.id in A && AfterPop(s, e).D[e.id].Fin?
    ensures AfterRelaxing(A, AfterPop(s, e), e.id, {}) == AfterPop(s, e)
  {
    RelaxNone(A, AfterPop(s, e), e.id);
  }

  /** Looking at one more neighbour adds it to the improved nodes exactly when it improves. */
  lemma ImprovedNext(A: Adj, s: Search, u: string, S: set<string>, n: string)
    requires n !in S
    ensures Improved(A, s, u, S + {n}) ==
      if Improves(A, s, u, n) then Improved(A, s, u, S) + {n} else Improved(A, s, u, S)
  {
  }

  lemma RelaxNextDist(A: Adj, s: Search, u: string, S: set<string>, n: string)
    requires u in s.D && s.D[u].Fin? && u in A && n in A[u] && n in s.D && n !in S
    ensures AfterRelaxing(A, s, u, S + {n}).D ==
      if Improves(A, s, u, n) then AfterRelaxing(A, s, u, S).D[n := Fin(s.D[u].v + A[u][n])]
      else AfterRelaxing(A, s, u, S).D
  {
    ImprovedNext(A, s, u, S, n);
  }

  lemma RelaxNextParent(A: Adj, s: Search, u: string, S: set<string>, n: string)
    requires n !in S
    ensures AfterRelaxing(A, s, u, S + {n}).P ==
      if Improves(A, s, u, n) then AfterRelaxing(A, s, u, S).P[n := Some(u)]
      else AfterRelaxing(A, s, u, S).P
  {
    ImprovedNext(A, s, u, S, n);
  }

  lemma RelaxNextQueue(A: Adj, s: Search, u: string, S: set<string>, n: string)
    requires u in s.D && s.D[u].Fin? && u in A && n in A[u] && n !in S
    ensures AfterRelaxing(A, s, u, S + {n}).pq ==
      if Improves(A, s, u, n) then AfterRelaxing(A, s, u, S).pq + {Entry(s.D[u].v + A[u][n], n)}
      else AfterRelaxing(A, s, u, S).pq
  {
    ImprovedNext(A, s, u, S, n);
  }

  /** One more neighbour `n`: relaxing it is the single update that the loop body performs. */
  lemma RelaxNext(A: Adj, s: Search, u: string, S: set<string>, n: string)
    requires Closed(A) && s.D.Keys == A.Keys
    requires u in s.seen && u in A && s.D[u].Fin? && n in A[u] && n !in S
    ensures var R := AfterRelaxing(A, s, u, S);
      && R.D.Keys == A.Keys && R.D[u] == s.D[u] && R.D[n] == s.D[n]
      && (Improves(A, s, u, n) <==> n !in s.seen && Below(s.D[u].v + A[u][n], s.D[n]))
      && AfterRelaxing(A, s, u, S + {n}) ==
           if Improves(A, s, u, n)
           then Search(R.D[n := Fin(s.D[u].v + A[u][n])], R.P[n := Some(u)], R.seen,
                       R.pq + {Entry(s.D[u].v + A[u][n], n)}, R.rank, R.clock, R.lo)
           else R
  {
    assert !Improves(A, s, u, u);
    RelaxNextDist(A, s, u, S, n);
    RelaxNextParent(A, s, u, S, n);
    RelaxNextQueue(A, s, u, S, n);
  }

  /** A node popped a second time improves none of its neighbours. */
  lemma StaleImprovesNone(A: Adj, s: Search, u: string, S: set<string>)
    requires RelaxOk(A, s, u, {}) && u in s.seen
    ensures Improved(A, s, u, S) == {}
  {
    forall m | m in S && u in A && m in A[u] && m !in s.seen
      ensures u in s.D && m in s.D && s.D[u].Fin? && s.D[m].Fin? && s.D[m].v <= s.D[u].v + A[u][m]
    {
    }
  }

  lemma RelaxAllShape(A: Adj, src: string, s: Search, u: string, S: set<string>)
    requires Shape(A, src, s) && src in s.seen && u in s.seen
    ensures Shape(A, src, AfterRelaxing(A, s, u, S))
  {
  }

  lemma RelaxAllQueue(A: Adj, s: Search, u: string, S: set<string>)
    requires QueueOk(A, s) && Closed(A) && s.D.Keys == A.Keys
    ensures QueueOk(A, AfterRelaxing(A, s, u, S))
  {
    var t := AfterRelaxing(A, s, u, S);
    var B := Improved(A, s, u, S);
    forall e | e in t.pq
      ensures e.id in A && e.id in t.D && t.D[e.id].Fin? && t.D[e.id].v <= e.d
    {
      if e !in s.pq {
        var m :| m in B && e == Entry(s.D[u].v + A[u][m], m);
      }
    }
    forall n | n in A && n !in t.seen && n in t.D && t.D[n].Fin?
      ensures Entry(t.D[n].v, n) in t.pq
    {
      if n !in B {
        assert t.D[n] == s.D[n];
      }
    }
  }

  lemma RelaxAllTree(A: Adj, src: string, s: Search, u: string, S: set<string>)
    requires Shape(A, src, s) && TreeOk(A, src, s) && src in s.seen && u in s.seen
    ensures TreeOk(A, src, AfterRelaxing(A, s, u, S))
  {
    RelaxAllTreeTight(A, src, s, u, S);
    RelaxAllTreeRank(A, src, s, u, S);
  }

  lemma RelaxAllTreeTight(A: Adj, src: string, s: Search, u: string, S: set<string>)
    requires u in s.seen
    requires forall x {:trigger x in s.seen} :: x in s.seen ==> x in s.D && s.D[x].Fin?
    requires forall n {:trigger s.P[n]} :: n in s.P && n != src ==> s.P[n].Some? && s.P[n].value in s.seen
    requires TreeEdgesTight(A, src, s.D, s.P)
    ensures TreeEdgesTight(A, src, AfterRelaxing(A, s, u, S).D, AfterRelaxing(A, s, u, S).P)
  {
    var t := AfterRelaxing(A, s, u, S);
    forall m | m in t.P && m != src
      ensures t.P[m].Some? && t.P[m].value in A && m in A[t.P[m].value]
           && t.P[m].value in t.D && t.D[t.P[m].value].Fin? && m in t.D
           && t.D[m] == Fin(t.D[t.P[m].value].v + A[t.P[m].value][m])
    {
      RelaxAllTreeEdge(A, src, s, u, S, m);
    }
  }

  lemma RelaxAllTreeRank(A: Adj, src: string, s: Search, u: string, S: set<string>)
    requires u in s.seen
    requires forall n {:trigger s.P[n]} :: n in s.P && n != src ==> s.P[n].Some? && s.P[n].value in s.seen
    requires forall n {:trigger s.P[n]} :: n in s.P && n in s.seen && s.P[n].Some? ==>
          s.P[n].value in s.rank && n in s.rank && s.rank[s.P[n].value] < s.rank[n]
    ensures var t := AfterRelaxing(A, s, u, S);
      && (forall n {:trigger t.P[n]} :: n in t.P && n != src ==> t.P[n].Some? && t.P[n].value in t.seen)
      && (forall n {:trigger t.P[n]} :: n in t.P && n in t.seen && t.P[n].Some? ==>
            t.P[n].value in t.rank && n in t.rank && t.rank[t.P[n].value] < t.rank[n])
  {
  }

  lemma RelaxAllTreeEdge(A: Adj, src: string, s: Search, u: string, S: set<string>, m: string)
    requires u in s.seen && m != src
    requires forall x {:trigger x in s.seen} :: x in s.seen ==> x in s.D && s.D[x].Fin?
    requires forall n {:trigger s.P[n]} :: n in s.P && n != src ==> s.P[n].Some? && s.P[n].value in s.seen
    requires TreeEdgesTight(A, src, s.D, s.P)
    requires m in AfterRelaxing(A, s, u, S).P
    ensures var t := AfterRelaxing(A, s, u, S);
      && t.P[m].Some? && t.P[m].value in A && m in A[t.P[m].value]
      && t.P[m].value in t.D && t.D[t.P[m].value].Fin? && m in t.D
      && t.D[m] == Fin(t.D[t.P[m].value].v + A[t.P[m].value][m])
  {
    var t := AfterRelaxing(A, s, u, S);
    var B := Improved(A, s, u, S);
    if m in B {
      assert t.P[m] == Some(u) && t.D[u] == s.D[u];
    } else {
      var p := s.P[m].value;
      assert p in s.seen;
      assert t.P[m] == s.P[m] && t.D[m] == s.D[m] && t.D[p] == s.D[p];
    }
  }

  /**
   * After all of `u`'s edges, every edge from a seen node is relaxed again.
   * `newlySeen` says that `u` was popped for the first time; a stale pop
   * changes nothing.
   */
  lemma RelaxAllRelax(A: Adj, s: Search, u: string, newlySeen: bool)
    requires u in s.seen && u in A && Closed(A) && s.D.Keys == A.Keys
    requires RelaxOk(A, s, u, if newlySeen then A[u].Keys else {}) && MonoOk(A, s)
    requires s.D[u].Fin? && (newlySeen ==> s.D[u] == Fin(s.lo))
    requires forall x {:trigger x in s.seen} :: x in s.seen ==> x in s.D && s.D[x].Fin?
    ensures RelaxOk(A, AfterRelaxing(A, s, u, A[u].Keys), u, {})
  {
    var t := AfterRelaxing(A, s, u, A[u].Keys);
    var B := Improved(A, s, u, A[u].Keys);
    forall x, n | x in t.seen && x in A && n in A[x] && (n !in t.seen || NonNegative(A))
      ensures x in t.D && n in t.D && t.D[x].Fin? && t.D[n].Fin? && t.D[n].v <= t.D[x].v + A[x][n]
    {
      assert t.D[x] == s.D[x];
      if x == u && newlySeen {
        if n in s.seen {
          assert A[u][n] >= 0.0;
        } else if n !in B {
          assert !Improves(A, s, u, n);
        }
      }
    }
  }

  lemma RelaxAllMono(A: Adj, s: Search, u: string, newlySeen: bool, S: set<string>)
    requires MonoOk(A, s) && u in s.seen && u in s.D && s.D[u].Fin?
    requires newlySeen ==> s.D[u] == Fin(s.lo)
    requires !newlySeen ==> Improved(A, s, u, S) == {}
    ensures MonoOk(A, AfterRelaxing(A, s, u, S))
  {
    var t := AfterRelaxing(A, s, u, S);
    var B := Improved(A, s, u, S);
    if NonNegative(A) {
      forall e | e in t.pq ensures t.lo <= e.d {
        if e !in s.pq {
          var m :| m in B && e == Entry(s.D[u].v + A[u][m], m);
          assert A[u][m] >= 0.0;
        }
      }
    }
  }

  // ------------------------------------------------ one whole iteration

  /** One iteration of the outer loop: pop `e`, mark its node seen, relax all its edges. */
  ghost function Step(A: Adj, s: Search, e: Entry): Search
    requires e.id in A
  {
    AfterRelaxing(A, AfterPop(s, e), e.id, A[e.id].Keys)
  }

  /**
   * An iteration keeps the invariant; it either marks a new node seen or,
   * for a stale entry, only shrinks the queue.
   */
  lemma StepPreserves(A: Adj, src: string, s: Search, e: Entry)
    requires SearchInv(A, src, s) && IsMinEntry(e, s.pq)
    ensures e.id in A && e.id in s.D && s.D[e.id].Fin?
    ensures SearchInv(A, src, Step(A, s, e))
    ensures Step(A, s, e).seen == s.seen + {e.id}
    ensures e.id in s.seen ==> Step(A, s, e).pq == s.pq - {e}
  {
    StepShape(A, src, s, e);
    StepQueue(A, src, s, e);
    StepTree(A, src, s, e);
    StepRelax(A, src, s, e);
    StepMono(A, src, s, e);
  }

  lemma StepShape(A: Adj, src: string, s: Search, e: Entry)
    requires SearchInv(A, src, s) && IsMinEntry(e, s.pq)
    ensures e.id in A && Shape(A, src, Step(A, s, e))
  {
    PopShape(A, src, s, e);
    RelaxAllShape(A, src, AfterPop(s, e), e.id, A[e.id].Keys);
  }

  lemma StepQueue(A: Adj, src: string, s: Search, e: Entry)
    requires SearchInv(A, src, s) && IsMinEntry(e, s.pq)
    ensures e.id in A && QueueOk(A, Step(A, s, e))
  {
    PopQueue(A, s, e);
    RelaxAllQueue(A, AfterPop(s, e), e.id, A[e.id].Keys);
  }

  lemma StepTree(A: Adj, src: string, s: Search, e: Entry)
    requires SearchInv(A, src, s) && IsMinEntry(e, s.pq)
    ensures e.id in A && TreeOk(A, src, Step(A, s, e))
  {
    PopShape(A, src, s, e);
    PopTree(A, src, s, e);
    RelaxAllTree(A, src, AfterPop(s, e), e.id, A[e.id].Keys);
  }

  lemma StepRelax(A: Adj, src: string, s: Search, e: Entry)
    requires SearchInv(A, src, s) && IsMinEntry(e, s.pq)
    ensures e.id in A && RelaxOk(A, Step(A, s, e), src, {})
    ensures e.id in s.seen ==> Step(A, s, e).pq == s.pq - {e}
  {
    var u := e.id;
    var s1 := AfterPop(s, e);
    PopShape(A, src, s, e);
    PopRelax(A, src, s, e);
    PopMono(A, s, e);
    if u !in s.seen {
      PopFresh(A, s, e);
    } else {
      StaleImprovesNone(A, s1, u, A[u].Keys);
    }
    RelaxAllRelax(A, s1, u, u !in s.seen);
  }

  lemma StepMono(A: Adj, src: string, s: Search, e: Entry)
    requires SearchInv(A, src, s) && IsMinEntry(e, s.pq)
    ensures e.id in A && MonoOk(A, Step(A, s, e))
  {
    var u := e.id;
    var s1 := AfterPop(s, e);
    PopRelax(A, src, s, e);
    PopMono(A, s, e);
    if u !in s.seen {
      PopFresh(A, s, e);
    } else {
      StaleImprovesNone(A, s1, u, A[u].Keys);
    }
    RelaxAllMono(A, s1, u, u !in s.seen, A[u].Keys);
  }


  /**
   * Every iteration makes progress: a fresh node joins `seen`, or a stale
   * entry leaves the queue.
   */
  lemma StepProgress(K: set<string>, seen: set<string>, pq: Queue, e: Entry, s': Search)
    requires e in pq && e.id in K
    requires s'.seen == seen + {e.id}
    requires e.id in seen ==> s'.pq == pq - {e}
    ensures K - s'.seen < K - seen || (s'.seen == seen && |s'.pq| < |pq|)
  {
    if e.id in seen {
      assert s'.seen == seen;
    } else {
      assert e.id in K - seen && e.id !in K - s'.seen;
    }
  }

  /** Once the queue is empty, the search's variables form a shortest-path tree. */
  lemma SearchDone(A: Adj, src: string, s: Search)
    requires SearchInv(A, src, s) && |s.pq| == 0
    ensures IsShortestPathTree(A, src, s.D, s.P, s.rank)
  {
    assert RankedForest(s.P, s.rank);
    assert ReachClosed(A, s.D) by {
      forall x, y | x in A && y in A[x] && x in s.D && s.D[x].Fin?
        ensures y in s.D && s.D[y].Fin?
      {
        assert A[x][y] == A[x][y];
      }
    }
    if NonNegative(A) {
      assert Relaxed(A, s.D);
    }
  }
}
