/** Spanning trees over the sites 0 .. n-1 and their weight.

    A tree is written rooted: every node outside a base set names a parent, and each parent
    is a base node or a node of smaller rank, so that following parents always ends in the
    base. With the base {0} this is exactly a spanning tree rooted at node 0 (the rank of a
    node can be taken to be its depth); with a larger base it is a forest that attaches every
    other node to the base, which is what remains to be built once Prim's algorithm has put the
    base into its tree. */
module SpanningTrees {
  import opened Geometry

  datatype Growth = Growth(parent: seq<nat>, rank: seq<nat>)

  /** `g` attaches every node outside `base` to `base`. */
  ghost predicate IsGrowth(base: seq<bool>, g: Growth) {
    && |g.parent| == |base| && |g.rank| == |base|
    && forall x :: 0 <= x < |base| && !base[x] ==>
         g.parent[x] < |base| && (base[g.parent[x]] || g.rank[g.parent[x]] < g.rank[x])
  }

  /** The base made of node 0 alone. */
  function Root(n: nat): (b: seq<bool>)
    ensures |b| == n && forall x :: 0 <= x < n ==> (b[x] <==> x == 0)
  {
    seq(n, x => x == 0)
  }

  /** `g` is a spanning tree of the n nodes, rooted at node 0. */
  ghost predicate IsSpanningTree(n: nat, g: Growth) {
    n >= 1 && IsGrowth(Root(n), g)
  }

  ghost predicate HasParents(base: seq<bool>, parent: seq<nat>) {
    |parent| == |base| && forall x :: 0 <= x < |base| && !base[x] ==> parent[x] < |base|
  }

  /** The summed length of the edges (x, parent[x]) for the nodes x < k outside `base`. */
  ghost function Weight(pts: seq<Point>, w: (Point, Point) -> real, base: seq<bool>, parent: seq<nat>, k: nat): (weight: real)
    requires |pts| == |base| && HasParents(base, parent) && k <= |base|
  {
    if k == 0 then 0.0
    else Weight(pts, w, base, parent, k - 1) + (if base[k - 1] then 0.0 else w(pts[k - 1], pts[parent[k - 1]]))
  }

  /** The summed length of all edges of `g`. */
  ghost function TreeWeight(pts: seq<Point>, w: (Point, Point) -> real, base: seq<bool>, g: Growth): (weight: real)
    requires |pts| == |base| && IsGrowth(base, g)
  {
    Weight(pts, w, base, g.parent, |pts|)
  }

  /** Moving an outside node x into the base removes exactly its own edge from the weight. */
  lemma {:induction false} WeightDrop(pts: seq<Point>, w: (Point, Point) -> real, base: seq<bool>, parent: seq<nat>, x: nat, k: nat)
    requires |pts| == |base| && HasParents(base, parent) && k <= |base|
    requires x < |base| && !base[x]
    ensures HasParents(base[x := true], parent)
    ensures Weight(pts, w, base, parent, k)
         == Weight(pts, w, base[x := true], parent, k) + (if x < k then w(pts[x], pts[parent[x]]) else 0.0)
  {
    if k > 0 {
      WeightDrop(pts, w, base, parent, x, k - 1);
    }
  }

  /** The weight depends only on the parents of the nodes outside the base. */
  lemma {:induction false} WeightAgree(pts: seq<Point>, w: (Point, Point) -> real, base: seq<bool>, p1: seq<nat>, p2: seq<nat>, k: nat)
    requires |pts| == |base| && HasParents(base, p1) && HasParents(base, p2) && k <= |base|
    requires forall x :: 0 <= x < |base| && !base[x] ==> p1[x] == p2[x]
    ensures Weight(pts, w, base, p1, k) == Weight(pts, w, base, p2, k)
  {
    if k > 0 {
      WeightAgree(pts, w, base, p1, p2, k - 1);
    }
  }

  /** With non-negative lengths, a weight is non-negative. */
  lemma {:induction false} WeightNonNegative(pts: seq<Point>, w: (Point, Point) -> real, base: seq<bool>, parent: seq<nat>, k: nat)
    requires |pts| == |base| && HasParents(base, parent) && k <= |base|
    requires forall a, b :: w(a, b) >= 0.0
    ensures Weight(pts, w, base, parent, k) >= 0.0
  {
    if k > 0 {
      WeightNonNegative(pts, w, base, parent, k - 1);
    }
  }

  /** When every node is in the base there are no edges left. */
  lemma {:induction false} WeightAllBase(pts: seq<Point>, w: (Point, Point) -> real, base: seq<bool>, parent: seq<nat>, k: nat)
    requires |pts| == |base| && HasParents(base, parent) && k <= |base|
    requires forall x :: 0 <= x < |base| ==> base[x]
    ensures Weight(pts, w, base, parent, k) == 0.0
  {
    if k > 0 {
      WeightAllBase(pts, w, base, parent, k - 1);
    }
  }

  /** The forest that has nothing left to attach. */
  lemma EmptyGrowth(pts: seq<Point>, w: (Point, Point) -> real, base: seq<bool>) returns (g: Growth)
    requires |pts| == |base|
    requires forall x :: 0 <= x < |base| ==> base[x]
    ensures IsGrowth(base, g) && TreeWeight(pts, w, base, g) == 0.0
  {
    g := Growth(seq(|base|, _ => 0), seq(|base|, _ => 0));
    WeightAllBase(pts, w, base, g.parent, |pts|);
  }

  /** Attaching a new base node u to the old base by an edge (u, s): a forest that attaches
      everything to `base` + {u} becomes one that attaches everything to `base`, one edge
      heavier. */
  lemma Attach(pts: seq<Point>, w: (Point, Point) -> real, base: seq<bool>, g: Growth, u: nat, s: nat) returns (g': Growth)
    requires |pts| == |base| && u < |base| && !base[u] && s < |base| && base[s]
    requires IsGrowth(base[u := true], g)
    ensures IsGrowth(base, g')
    ensures TreeWeight(pts, w, base, g') == TreeWeight(pts, w, base[u := true], g) + w(pts[u], pts[s])
  {
    var n := |base|;
    g' := Growth(g.parent[u := s], seq(n, x requires 0 <= x < n => if x == u then 0 else g.rank[x] + 1));
    WeightDrop(pts, w, base, g'.parent, u, n);
    WeightAgree(pts, w, base[u := true], g'.parent, g.parent, n);
  }

  /** The exchange step of the correctness argument for Prim's algorithm. If every edge that
      leaves `base` has length at least c, then any forest that attaches everything to `base`
      can be turned into one that attaches everything to `base` + {u} and is lighter by at
      least c: the path from u up to the base is re-hung from u, and the edge by which it left
      the base is dropped. Nodes of higher rank than u keep their parents. */
  lemma {:induction false} Reroot(pts: seq<Point>, w: (Point, Point) -> real, base: seq<bool>, g: Growth, u: nat, c: real)
    returns (g': Growth)
    requires |pts| == |base| && IsGrowth(base, g) && u < |base| && !base[u]
    requires forall a, b :: w(a, b) == w(b, a)
    requires forall s, v :: 0 <= s < |base| && 0 <= v < |base| && base[s] && !base[v] ==> c <= w(pts[s], pts[v])
    ensures IsGrowth(base[u := true], g')
    ensures TreeWeight(pts, w, base[u := true], g') <= TreeWeight(pts, w, base, g) - c
    ensures forall x :: 0 <= x < |base| && !base[x] && g.rank[x] > g.rank[u] ==> g'.parent[x] == g.parent[x]
    decreases g.rank[u]
  {
    var n := |base|;
    var p := g.parent[u];
    WeightDrop(pts, w, base, g.parent, u, n);
    if base[p] {
      // u's own edge leaves the base: dropping it is enough.
      g' := g;
      assert c <= w(pts[p], pts[u]);
    } else {
      // First re-hang p, then swap the roles of u and p.
      var g1 := Reroot(pts, w, base, g, p, c);
      var base1 := base[p := true];
      assert g1.parent[u] == p;
      var rank' := seq(n, x requires 0 <= x < n => if x == p then 0 else g1.rank[x] + 1);
      g' := Growth(g1.parent[p := u], rank');
      var base2 := base[u := true];
      assert base2[p := true] == base1[u := true];
      WeightDrop(pts, w, base1, g1.parent, u, n);
      WeightDrop(pts, w, base2, g'.parent, p, n);
      WeightAgree(pts, w, base1[u := true], g'.parent, g1.parent, n);
    }
  }
}
