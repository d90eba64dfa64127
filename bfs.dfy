/**
 * Breadth-first search over a successor function, shared by the searches of
 * wasm/src/map_utils.rs and app/game/generator/aStar.ts. `Within(succ, s, k)`
 * is the set of nodes at most `k` steps from `s`; a node's distance is the
 * least such `k`. `Frontier` is the invariant of a FIFO queue of
 * (node, distance) pairs with a visited set, as both sources keep them.
 */
module Bfs {
  import opened Wrappers

  /** The nodes of `ns` that `ok` admits, in order. */
  function Keep<T(!new)>(ns: seq<T>, ok: T -> bool): (r: seq<T>)
    ensures forall v :: v in r <==> v in ns && ok(v)
  {
    if ns == [] then []
    else if ok(ns[0]) then [ns[0]] + Keep(ns[1..], ok)
    else Keep(ns[1..], ok)
  }

  /** The graph whose edges are those of `nb` that lead into a node `ok` admits. */
  function Admitted<T(!new)>(nb: T -> seq<T>, ok: T -> bool): T -> seq<T> {
    u => Keep(nb(u), ok)
  }

  /** `g`'s edges are exactly those of `nb` that lead into a node `ok` admits. */
  ghost predicate Restricts<T(!new)>(g: T -> seq<T>, nb: T -> seq<T>, ok: T -> bool) {
    forall u, v :: v in g(u) <==> v in nb(u) && ok(v)
  }

  lemma AdmittedRestricts<T(!new)>(nb: T -> seq<T>, ok: T -> bool)
    ensures Restricts(Admitted(nb, ok), nb, ok)
  {
  }

  /** One edge of `Admitted(nb, ok)`. */
  lemma AdmittedEdge<T(!new)>(nb: T -> seq<T>, ok: T -> bool, u: T, v: T)
    ensures v in Admitted(nb, ok)(u) <==> v in nb(u) && ok(v)
  {
    AdmittedRestricts(nb, ok);
  }

  /** The nodes one step away from some node of `w`. */
  ghost function Next<T>(succ: T -> seq<T>, w: set<T>): set<T> {
    set u, v | u in w && v in succ(u) :: v
  }

  /** The nodes reachable from `s` in at most `k` steps. */
  ghost function Within<T>(succ: T -> seq<T>, s: T, k: nat): set<T> {
    if k == 0 then {s} else Within(succ, s, k - 1) + Next(succ, Within(succ, s, k - 1))
  }

  /** `t` is exactly `d` steps from `s`: reachable in `d` steps and not in fewer. */
  ghost predicate Shortest<T>(succ: T -> seq<T>, s: T, t: T, d: nat) {
    t in Within(succ, s, d) && (d > 0 ==> t !in Within(succ, s, d - 1))
  }

  /** `t` can be reached from `s` at all. */
  ghost predicate Reachable<T>(succ: T -> seq<T>, s: T, t: T) {
    exists k: nat :: t in Within(succ, s, k)
  }

  lemma {:induction false} WithinMonotone<T>(succ: T -> seq<T>, s: T, i: nat, j: nat)
    requires i <= j
    ensures Within(succ, s, i) <= Within(succ, s, j)
  {
    if i < j {
      WithinMonotone(succ, s, i, j - 1);
    }
  }

  /** A node has at most one distance. */
  lemma ShortestUnique<T>(succ: T -> seq<T>, s: T, t: T, d: nat, e: nat)
    requires Shortest(succ, s, t, d) && Shortest(succ, s, t, e)
    ensures d == e
  {
    if d < e {
      WithinMonotone(succ, s, d, e - 1);
    } else if e < d {
      WithinMonotone(succ, s, e, d - 1);
    }
  }

  /** Every reachable node has a distance. */
  lemma {:induction false} ReachableHasDistance<T>(succ: T -> seq<T>, s: T, t: T, k: nat)
    requires t in Within(succ, s, k)
    ensures exists d: nat :: d <= k && Shortest(succ, s, t, d)
  {
    if k > 0 && t in Within(succ, s, k - 1) {
      ReachableHasDistance(succ, s, t, k - 1);
    } else {
      assert Shortest(succ, s, t, k);
    }
  }

  /** `p` is a walk: each node is a successor of the one before. */
  ghost predicate IsPath<T>(succ: T -> seq<T>, p: seq<T>) {
    |p| >= 1 && forall i :: 0 <= i < |p| - 1 ==> p[i + 1] in succ(p[i])
  }

  /** A walk of `n` steps ends within `n` steps of its start. */
  lemma {:induction false} PathWithin<T>(succ: T -> seq<T>, p: seq<T>)
    requires IsPath(succ, p)
    ensures p[|p| - 1] in Within(succ, p[0], |p| - 1)
  {
    if |p| > 1 {
      var init := p[..|p| - 1];
      assert IsPath(succ, init);
      PathWithin(succ, init);
      assert p[|p| - 1] in succ(init[|init| - 1]);
    }
  }

  /** A node within `k` steps is the end of a walk of at most `k` steps. */
  lemma {:induction false} WithinPath<T>(succ: T -> seq<T>, s: T, t: T, k: nat) returns (p: seq<T>)
    requires t in Within(succ, s, k)
    ensures IsPath(succ, p) && p[0] == s && p[|p| - 1] == t && |p| <= k + 1
  {
    if k == 0 {
      p := [s];
    } else if t in Within(succ, s, k - 1) {
      p := WithinPath(succ, s, t, k - 1);
    } else {
      var u :| u in Within(succ, s, k - 1) && t in succ(u);
      var q := WithinPath(succ, s, u, k - 1);
      p := q + [t];
      assert forall i :: 0 <= i < |q| ==> p[i] == q[i];
    }
  }

  /** A distance `d` means: some walk of `d` steps reaches `t`, and no walk of fewer steps does. */
  lemma ShortestIsShortestPath<T>(succ: T -> seq<T>, s: T, t: T, d: nat, p: seq<T>)
    requires Shortest(succ, s, t, d)
    requires IsPath(succ, p) && p[0] == s && p[|p| - 1] == t
    ensures |p| - 1 >= d
  {
    PathWithin(succ, p);
    if |p| - 1 < d {
      WithinMonotone(succ, s, |p| - 1, d - 1);
    }
  }

  /** A set that holds `s` and the successors of all its nodes holds everything reachable from `s`. */
  lemma {:induction false} ClosedContainsWithin<T>(succ: T -> seq<T>, s: T, c: set<T>, k: nat)
    requires s in c && forall u, v :: u in c && v in succ(u) ==> v in c
    ensures Within(succ, s, k) <= c
  {
    if k > 0 {
      ClosedContainsWithin(succ, s, c, k - 1);
    }
  }

  /** The nodes held by a queue of (node, distance) pairs. */
  ghost function Nodes<T>(q: seq<(T, nat)>): set<T> {
    set i | 0 <= i < |q| :: q[i].0
  }

  /** The successors of every node in `done` have been visited. */
  ghost predicate Closed<T>(succ: T -> seq<T>, done: set<T>, vis: set<T>) {
    forall u, v :: u in done && v in succ(u) ==> v in vis
  }

  /**
   * The queue invariant of a breadth-first search from `s`: the visited
   * nodes are those already expanded (`done`) and those queued; every queued
   * pair carries the exact distance of its node; distances in the queue are
   * ascending and are `level` or `level + 1`; and every node within `level`
   * steps has been visited.
   */
  ghost predicate Frontier<T>(succ: T -> seq<T>, s: T, vis: set<T>, done: set<T>, q: seq<(T, nat)>, level: nat) {
    && vis == done + Nodes(q)
    && s in vis
    && (forall i :: 0 <= i < |q| ==> Shortest(succ, s, q[i].0, q[i].1) && level <= q[i].1 <= level + 1)
    && (forall i, j :: 0 <= i < j < |q| ==> q[i].1 <= q[j].1)
    && Within(succ, s, level) <= vis
  }

  /** The search starts with `s` visited and queued at distance 0. */
  lemma FrontierInit<T>(succ: T -> seq<T>, s: T)
    ensures Frontier(succ, s, {s}, {}, [(s, 0)], 0) && Closed(succ, {}, {s})
  {
    var q: seq<(T, nat)> := [(s, 0)];
    assert q[0].0 == s;
    assert Nodes(q) == {s};
  }

  /** The front pair of the queue carries its node's distance, `level` or `level + 1`. */
  lemma FrontierFront<T>(succ: T -> seq<T>, s: T, vis: set<T>, done: set<T>, q: seq<(T, nat)>, level: nat)
    requires Frontier(succ, s, vis, done, q, level) && q != []
    ensures Shortest(succ, s, q[0].0, q[0].1) && level <= q[0].1 <= level + 1
  {
  }

  /** Raising `level` to the distance of the front pair when that is one further on. */
  lemma FrontierCatchUp<T>(succ: T -> seq<T>, s: T, vis: set<T>, done: set<T>, q: seq<(T, nat)>, level: nat)
    returns (level': nat)
    requires Frontier(succ, s, vis, done, q, level) && Closed(succ, done, vis) && q != []
    ensures Frontier(succ, s, vis, done, q, level') && q[0].1 == level' && Shortest(succ, s, q[0].0, level')
    ensures level' == level || level' == level + 1
  {
    if q[0].1 > level {
      FrontierRaise(succ, s, vis, done, q, level);
      level' := level + 1;
    } else {
      level' := level;
    }
  }

  /** Once the queue front is a level further on, every node within that level has been visited. */
  lemma FrontierRaise<T>(succ: T -> seq<T>, s: T, vis: set<T>, done: set<T>, q: seq<(T, nat)>, level: nat)
    requires Frontier(succ, s, vis, done, q, level) && Closed(succ, done, vis)
    requires q != [] && q[0].1 == level + 1
    ensures Frontier(succ, s, vis, done, q, level + 1)
  {
    forall w | w in Within(succ, s, level + 1) ensures w in vis {
      if w !in Within(succ, s, level) {
        var u :| u in Within(succ, s, level) && w in succ(u);
        if u in done {
          assert w in vis;
        } else {
          RaiseQueued(succ, s, vis, done, q, level, u);
        }
      }
    }
  }

  /** With the front a level beyond `level`, no queued node is within `level` steps. */
  lemma RaiseQueued<T>(succ: T -> seq<T>, s: T, vis: set<T>, done: set<T>, q: seq<(T, nat)>, level: nat, u: T)
    requires Frontier(succ, s, vis, done, q, level)
    requires q != [] && q[0].1 == level + 1
    requires u in Within(succ, s, level) && u in vis
    ensures u in done
  {
    forall i | 0 <= i < |q| ensures q[i].0 != u {
      assert q[0].1 <= q[i].1;
      ShortestBeyond(succ, s, q[i].0, q[i].1, level);
    }
  }

  /** A node `d` steps away is outside `Within(k)` for every `k < d`. */
  lemma ShortestBeyond<T>(succ: T -> seq<T>, s: T, t: T, d: nat, k: nat)
    requires Shortest(succ, s, t, d) && k < d
    ensures t !in Within(succ, s, k)
  {
    WithinMonotone(succ, s, k, d - 1);
  }

  /** Expanding the front pair: its node moves from the queue to `done`. */
  lemma FrontierPop<T>(succ: T -> seq<T>, s: T, vis: set<T>, done: set<T>, q: seq<(T, nat)>, level: nat)
    requires Frontier(succ, s, vis, done, q, level) && q != []
    ensures Frontier(succ, s, vis, done + {q[0].0}, q[1..], level)
  {
    NodesTail(q);
  }

  /** The nodes of a queue are its front node and the nodes behind it. */
  lemma NodesTail<T>(q: seq<(T, nat)>)
    requires q != []
    ensures Nodes(q) == {q[0].0} + Nodes(q[1..])
  {
    forall x | x in Nodes(q) ensures x in {q[0].0} + Nodes(q[1..]) {
      var i :| 0 <= i < |q| && q[i].0 == x;
      if i > 0 {
        assert q[1..][i - 1].0 == x;
      }
    }
  }

  /** Appending a pair adds its node to the nodes of a queue. */
  lemma NodesAppend<T>(q: seq<(T, nat)>, x: (T, nat))
    ensures Nodes(q + [x]) == Nodes(q) + {x.0}
  {
    var q' := q + [x];
    forall y | y in Nodes(q') ensures y in Nodes(q) + {x.0} {
      var i :| 0 <= i < |q'| && q'[i].0 == y;
      if i < |q| {
        assert q[i].0 == y;
      }
    }
    forall y | y in Nodes(q) ensures y in Nodes(q') {
      var i :| 0 <= i < |q| && q[i].0 == y;
      assert q'[i].0 == y;
    }
    assert q'[|q|].0 == x.0;
  }

  /** Visiting an unvisited successor `v` of the node `u` just expanded at distance `level`, queued at `d = level + 1`. */
  lemma FrontierPush<T>(succ: T -> seq<T>, s: T, vis: set<T>, done: set<T>, q: seq<(T, nat)>, level: nat, u: T, v: T, d: nat)
    requires Frontier(succ, s, vis, done, q, level)
    requires Shortest(succ, s, u, level) && v in succ(u) && v !in vis && d == level + 1
    ensures Shortest(succ, s, v, d)
    ensures Frontier(succ, s, vis + {v}, done, q + [(v, d)], level)
  {
    assert v in Next(succ, Within(succ, s, level));
    NodesAppend(q, (v, d));
  }

  /** With the queue exhausted and every expanded node closed, no unvisited node is reachable. */
  lemma FrontierExhausted<T>(succ: T -> seq<T>, s: T, vis: set<T>, done: set<T>, level: nat, t: T)
    requires Frontier(succ, s, vis, done, [], level) && Closed(succ, done, vis) && t !in vis
    ensures !Reachable(succ, s, t)
  {
    assert Nodes<T>([]) == {};
    forall k: nat ensures t !in Within(succ, s, k) {
      ClosedContainsWithin(succ, s, vis, k);
    }
  }

  /** A node not yet expanded is not within `k < level` steps: those nodes were all expanded before. */
  lemma FrontierUnexpanded<T>(succ: T -> seq<T>, s: T, vis: set<T>, done: set<T>, q: seq<(T, nat)>, level: nat,
                              k: nat, t: T)
    requires Frontier(succ, s, vis, done, q, level) && t !in done && k < level
    ensures t !in Within(succ, s, k)
  {
    if t in Within(succ, s, k) {
      WithinMonotone(succ, s, k, level);
      assert t in Nodes(q);
      var i :| 0 <= i < |q| && q[i].0 == t;
      ShortestBeyond(succ, s, t, q[i].1, k);
    }
  }

  /** Expanding `u` closes it once all its successors are visited. */
  lemma ClosedExtend<T>(succ: T -> seq<T>, done: set<T>, vis0: set<T>, vis: set<T>, u: T)
    requires Closed(succ, done, vis0) && vis0 <= vis
    requires forall v :: v in succ(u) ==> v in vis
    ensures Closed(succ, done + {u}, vis)
  {
  }

  /** The distance from `s` to `t`, or `None` when `t` cannot be reached. */
  ghost function Distance<T>(succ: T -> seq<T>, s: T, t: T): (r: Option<nat>)
    ensures r.Some? <==> Reachable(succ, s, t)
    ensures r.Some? ==> Shortest(succ, s, t, r.value)
  {
    if Reachable(succ, s, t) then
      var k: nat :| t in Within(succ, s, k);
      ReachableHasDistance(succ, s, t, k);
      var d: nat :| Shortest(succ, s, t, d);
      Some(d)
    else None
  }

  /** A node exactly `d` steps away has distance `d`. */
  lemma DistanceIs<T>(succ: T -> seq<T>, s: T, t: T, d: nat)
    requires Shortest(succ, s, t, d)
    ensures Distance(succ, s, t) == Some(d)
  {
    assert Reachable(succ, s, t);
    ShortestUnique(succ, s, t, d, Distance(succ, s, t).value);
  }

  /** Every node is at distance 0 from itself. */
  lemma DistanceSelf<T>(succ: T -> seq<T>, s: T)
    ensures Distance(succ, s, s) == Some(0)
  {
    DistanceIs(succ, s, s, 0);
  }

  /** A node outside `Within(k)` is more than `k` steps away. */
  lemma BeyondWithin<T>(succ: T -> seq<T>, s: T, t: T, k: nat, d: nat)
    requires t !in Within(succ, s, k) && Shortest(succ, s, t, d)
    ensures d > k
  {
    if d <= k {
      WithinMonotone(succ, s, d, k);
    }
  }

  /** While the front of the queue is at `level`, a node not yet expanded is at least `level` steps away. */
  lemma FrontierLowerBound<T>(succ: T -> seq<T>, s: T, vis: set<T>, done: set<T>, q: seq<(T, nat)>, level: nat, t: T)
    requires Frontier(succ, s, vis, done, q, level) && t !in done && level > 0
    ensures Distance(succ, s, t).Some? ==> Distance(succ, s, t).value >= level
  {
    ghost var k: nat := level - 1;
    FrontierUnexpanded(succ, s, vis, done, q, level, k, t);
    var r := Distance(succ, s, t);
    if r.Some? {
      BeyondWithin(succ, s, t, k, r.value);
    }
  }

  /** In a graph of admitted edges, every node reached other than the start was admitted. */
  lemma {:induction false} AdmittedWithin<T(!new)>(nb: T -> seq<T>, ok: T -> bool, s: T, k: nat, t: T)
    requires t in Within(Admitted(nb, ok), s, k) && t != s
    ensures ok(t)
  {
    if k > 0 && t in Within(Admitted(nb, ok), s, k - 1) {
      AdmittedWithin(nb, ok, s, k - 1, t);
    } else if k > 0 {
      var u :| u in Within(Admitted(nb, ok), s, k - 1) && t in Admitted(nb, ok)(u);
    }
  }
}
