/**
 * Distances on the wasm map (wasm/src/map_utils.rs): breadth-first search
 * from `from` over the accessible neighbours of each land, with a `HashSet`
 * of visited nodes and a FIFO queue of (node, distance) pairs. With
 * `strict`, cities are never entered. The two searches are written once for
 * any neighbour function `nb` and admission test `ok`; `Dist` and
 * `RequireDist` run them on the map's `neighbors`.
 */
module WasmUtils {
  import opened Wrappers
  import opened WasmMap
  import opened Bfs
  import opened Seqs

  /**
   * The inner loop: every neighbour of `pos` that `ok` admits and that is
   * not yet visited is marked visited and queued one step further than `pos`.
   * The ghost `g` is the search graph, `Admitted(nb, ok)`.
   */
  method Expand<T(==,!new)>(nb: T -> seq<T>, ok: T -> bool, ghost g: T -> seq<T>, ghost from: T, pos: T, dist: nat,
                           vis0: set<T>, q0: seq<(T, nat)>, ghost done: set<T>, ghost level: nat, ghost dom: set<T>)
    returns (vis: set<T>, q: seq<(T, nat)>)
    requires Restricts(g, nb, ok) && Frontier(g, from, vis0, done, q0, level)
    requires Shortest(g, from, pos, level) && dist == level
    requires vis0 <= dom && forall v :: v in nb(pos) ==> v in dom
    ensures Frontier(g, from, vis, done, q, level)
    ensures forall v :: v in g(pos) ==> v in vis
    ensures vis0 <= vis <= dom
    ensures vis == vis0 ==> q == q0
  {
    var ns := nb(pos);
    vis, q := vis0, q0;
    var k := 0;
    while k < |ns|
      invariant k <= |ns|
      invariant Frontier(g, from, vis, done, q, level)
      invariant forall j :: 0 <= j < k && ok(ns[j]) ==> ns[j] in vis
      invariant vis0 <= vis <= dom
      invariant vis == vis0 ==> q == q0
    {
      vis, q := Visit(nb, ok, g, from, pos, dist, ns[k], vis, q, done, level);
      k := k + 1;
    }
    forall v | v in g(pos) ensures v in vis {
      assert v in ns && ok(v);
      var j :| 0 <= j < |ns| && ns[j] == v;
    }
  }

  /** One neighbour `next` of `pos`: visited and queued when admitted and not yet visited. */
  method Visit<T(==,!new)>(nb: T -> seq<T>, ok: T -> bool, ghost g: T -> seq<T>, ghost from: T, pos: T, dist: nat, next: T,
                          vis0: set<T>, q0: seq<(T, nat)>, ghost done: set<T>, ghost level: nat)
    returns (vis: set<T>, q: seq<(T, nat)>)
    requires Restricts(g, nb, ok) && Frontier(g, from, vis0, done, q0, level)
    requires Shortest(g, from, pos, level) && dist == level && next in nb(pos)
    ensures Frontier(g, from, vis, done, q, level)
    ensures vis == if ok(next) then vis0 + {next} else vis0
    ensures vis == vis0 ==> q == q0
  {
    vis, q := vis0, q0;
    if ok(next) && next !in vis {
      var d := dist + 1;
      FrontierPush(g, from, vis, done, q, level, pos, next, d);
      vis := vis + {next};
      q := q + [(next, d)];
    }
  }

  /**
   * One turn of either loop once the front pair, at distance `level`, is not
   * the target: pop it, expand it, and count its node as done.
   */
  method Advance<T(==,!new)>(nb: T -> seq<T>, ok: T -> bool, ghost g: T -> seq<T>, ghost from: T, vis0: set<T>,
                            q0: seq<(T, nat)>, ghost done0: set<T>, ghost level: nat, ghost dom: set<T>)
    returns (vis: set<T>, q: seq<(T, nat)>, ghost done: set<T>)
    requires Restricts(g, nb, ok) && Frontier(g, from, vis0, done0, q0, level) && Closed(g, done0, vis0)
    requires q0 != [] && q0[0].1 == level
    requires vis0 <= dom && forall u, v :: v in nb(u) ==> v in dom
    ensures Frontier(g, from, vis, done, q, level) && Closed(g, done, vis)
    ensures done == done0 + {q0[0].0}
    ensures vis0 <= vis <= dom && (vis == vis0 ==> |q| < |q0|)
  {
    var pos, dist := q0[0].0, q0[0].1;
    FrontierFront(g, from, vis0, done0, q0, level);
    FrontierPop(g, from, vis0, done0, q0, level);
    done := done0 + {pos};
    vis, q := Expand(nb, ok, g, from, pos, dist, vis0, q0[1..], done, level, dom);
    ClosedExtend(g, done0, vis0, vis, pos);
  }

  /**
   * The loop of `dist`: pop the front pair, answer its distance if it is the
   * target, otherwise expand it; an exhausted queue means no path.
   */
  method SearchDist<T(==,!new)>(nb: T -> seq<T>, ok: T -> bool, from: T, to: T, ghost dom: set<T>) returns (r: Option<nat>)
    requires from in dom && forall u, v :: v in nb(u) ==> v in dom
    ensures r == Distance(Admitted(nb, ok), from, to)
  {
    ghost var g := Admitted(nb, ok);
    AdmittedRestricts(nb, ok);
    var vis: set<T> := {from};
    var q: seq<(T, nat)> := [(from, 0)];
    ghost var done: set<T> := {};
    ghost var level: nat := 0;
    FrontierInit(g, from);
    while q != []
      invariant Frontier(g, from, vis, done, q, level) && Closed(g, done, vis)
      invariant to !in done && vis <= dom
      decreases dom - vis, |q|
    {
      var pos, dist := q[0].0, q[0].1;
      level := FrontierCatchUp(g, from, vis, done, q, level);
      if pos == to {
        DistanceIs(g, from, to, dist);
        return Some(dist);
      }
      vis, q, done := Advance(nb, ok, g, from, vis, q, done, level, dom);
    }
    FrontierExhausted(g, from, vis, done, level, to);
    return None;
  }

  /**
   * The loop of `require_dist`: as `SearchDist`, but answering whether the
   * distance lies in `lo..=hi`, and giving up with `false` as soon as the
   * popped distance exceeds `hi`.
   */
  method SearchRange<T(==,!new)>(nb: T -> seq<T>, ok: T -> bool, from: T, to: T, lo: nat, hi: nat, ghost dom: set<T>)
    returns (b: bool)
    requires from in dom && forall u, v :: v in nb(u) ==> v in dom
    ensures b <==> (var d := Distance(Admitted(nb, ok), from, to); d.Some? && lo <= d.value <= hi)
  {
    ghost var g := Admitted(nb, ok);
    AdmittedRestricts(nb, ok);
    var vis: set<T> := {from};
    var q: seq<(T, nat)> := [(from, 0)];
    ghost var done: set<T> := {};
    ghost var level: nat := 0;
    FrontierInit(g, from);
    while q != []
      invariant Frontier(g, from, vis, done, q, level) && Closed(g, done, vis)
      invariant to !in done && vis <= dom
      decreases dom - vis, |q|
    {
      var pos, dist := q[0].0, q[0].1;
      level := FrontierCatchUp(g, from, vis, done, q, level);
      if pos == to {
        DistanceIs(g, from, to, dist);
        return lo <= dist <= hi;
      }
      if dist > hi {
        FrontierLowerBound(g, from, vis, done, q, level, to);
        return false;
      }
      vis, q, done := Advance(nb, ok, g, from, vis, q, done, level, dom);
    }
    FrontierExhausted(g, from, vis, done, level, to);
    return false;
  }

  /** `neighbors` of the map as a total function. */
  function NeighborsOf(m: Map, u: nat): (r: seq<nat>)
    ensures forall v :: v in r ==> v < |m.lands|
  {
    if Valid(m) && m.width > 0 then Neighbors(m, u) else []
  }

  /** The map's neighbour function. */
  function Nb(m: Map): nat -> seq<nat> {
    u => NeighborsOf(m, u)
  }

  /** The lands a search may enter: with `strict`, no city. */
  function Enterable(m: Map, strict: bool): nat -> bool {
    (v: nat) => !strict || (v < |m.lands| && m.lands[v].kind != City)
  }

  /** The search graph of a map. */
  function Graph(m: Map, strict: bool): nat -> seq<nat> {
    Admitted(Nb(m), Enterable(m, strict))
  }

  /** The nodes a search from `from` can ever visit: the map's indices and `from` itself. */
  ghost function Domain(m: Map, from: nat): set<nat> {
    (set i | i in Iota(|m.lands|)) + {from}
  }

  /** Every neighbour lies in the domain. */
  lemma NbInDomain(m: Map, from: nat)
    ensures from in Domain(m, from) && forall u, v :: v in Nb(m)(u) ==> v in Domain(m, from)
  {
    forall u, v | v in Nb(m)(u) ensures v in Domain(m, from) {
      assert Iota(|m.lands|)[v] == v;
    }
  }

  /** `dist`: the length of a shortest path from `from` to `to`, or `None` when there is none. */
  method Dist(m: Map, from: nat, to: nat, strict: bool) returns (r: Option<nat>)
    requires Valid(m) && m.width > 0
    ensures r == Distance(Graph(m, strict), from, to)
  {
    NbInDomain(m, from);
    r := SearchDist(Nb(m), Enterable(m, strict), from, to, Domain(m, from));
  }

  /** `require_dist`: whether `to` is reached at a distance in `lo..=hi`. */
  method RequireDist(m: Map, from: nat, to: nat, lo: nat, hi: nat, strict: bool) returns (b: bool)
    requires Valid(m) && m.width > 0
    ensures b <==> (var d := Distance(Graph(m, strict), from, to); d.Some? && lo <= d.value <= hi)
  {
    NbInDomain(m, from);
    b := SearchRange(Nb(m), Enterable(m, strict), from, to, lo, hi, Domain(m, from));
  }

  /** A search starts at distance 0: `dist(a, a, _) == Some(0)`. */
  lemma DistSelf(m: Map, a: nat, strict: bool)
    ensures Distance(Graph(m, strict), a, a) == Some(0)
  {
    DistanceSelf(Graph(m, strict), a);
  }

  /** With `strict`, every node a search reaches other than its start is a land of the map and not a city. */
  lemma StrictAvoidsCities(m: Map, from: nat, k: nat, t: nat)
    requires t in Within(Graph(m, true), from, k) && t != from
    ensures t < |m.lands| && m.lands[t].kind != City
  {
    AdmittedWithin(Nb(m), Enterable(m, true), from, k, t);
  }
}
