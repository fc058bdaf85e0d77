/** Prim's algorithm on the complete graph over a sequence of sites, in the dense O(n^2)
    form: a tree-membership flag and a fringe value per node. */
module Prim {
  import opened ExtendedReals
  import opened Geometry
  import opened SpanningTrees

  // ---------------------------------------------------------------------------------
  // Specification of one round: the candidate scan and the relaxation step.
  // ---------------------------------------------------------------------------------

  /** The fringe value of the current candidate, or the sentinel when there is none. */
  function BestOf(minEdge: seq<Extended>, u: nat): (best: Extended) {
    if u < |minEdge| then minEdge[u] else Infinity
  }

  /** The candidate after the scan has looked at the nodes 0 .. k-1: an outside node is taken
      when its fringe value is strictly below the best one so far; |inMst| means "none yet". */
  function ScanFrom(inMst: seq<bool>, minEdge: seq<Extended>, k: nat): (u: nat)
    requires |inMst| == |minEdge| && k <= |inMst|
    ensures u == |inMst| || (u < k && !inMst[u] && minEdge[u].Finite?)
  {
    if k == 0 then |inMst|
    else
      var u := ScanFrom(inMst, minEdge, k - 1);
      if !inMst[k - 1] && Below(minEdge[k - 1], BestOf(minEdge, u)) then k - 1 else u
  }

  /** The node a round adds to the tree, or |inMst| when the round stops the algorithm. */
  function Select(inMst: seq<bool>, minEdge: seq<Extended>): (u: nat)
    requires |inMst| == |minEdge|
  {
    ScanFrom(inMst, minEdge, |inMst|)
  }

  /** The scan over 0 .. k-1 finds no node exactly when every outside node there still has the
      sentinel; otherwise it finds an outside node of least fringe value, and no outside node
      before it has that value. */
  lemma {:induction false} ScanIsFirstMinimum(inMst: seq<bool>, minEdge: seq<Extended>, k: nat)
    requires |inMst| == |minEdge| && k <= |inMst|
    ensures var u := ScanFrom(inMst, minEdge, k);
      && (u == |inMst| <==> forall v :: 0 <= v < k && !inMst[v] ==> minEdge[v] == Infinity)
      && (u < |inMst| ==> forall v :: 0 <= v < k && !inMst[v] ==> !Below(minEdge[v], minEdge[u]))
      && (u < |inMst| ==> forall v :: 0 <= v < u && !inMst[v] ==> Below(minEdge[u], minEdge[v]))
  {
    if k > 0 {
      ScanIsFirstMinimum(inMst, minEdge, k - 1);
    }
  }

  /** Select finds the lowest-index outside node of least fringe value, and reports "none"
      exactly when every outside node still has the sentinel. */
  lemma SelectIsFirstMinimum(inMst: seq<bool>, minEdge: seq<Extended>)
    requires |inMst| == |minEdge|
    ensures var u := Select(inMst, minEdge);
      && (u == |inMst| <==> forall v :: 0 <= v < |inMst| && !inMst[v] ==> minEdge[v] == Infinity)
      && (u < |inMst| ==> !inMst[u] && minEdge[u].Finite?)
      && (u < |inMst| ==> forall v :: 0 <= v < |inMst| && !inMst[v] ==> !Below(minEdge[v], minEdge[u]))
      && (u < |inMst| ==> forall v :: 0 <= v < u && !inMst[v] ==> Below(minEdge[u], minEdge[v]))
  {
    ScanIsFirstMinimum(inMst, minEdge, |inMst|);
  }

  /** The fringe after u has joined the tree: every node still outside keeps the smaller of
      its old value and its distance to u (`inMst` already has u marked). */
  function Relaxed(pts: seq<Point>, w: (Point, Point) -> real, inMst: seq<bool>, minEdge: seq<Extended>, u: nat)
    : (r: seq<Extended>)
    requires |inMst| == |pts| && |minEdge| == |pts| && u < |pts|
    ensures |r| == |pts|
  {
    seq(|pts|, v requires 0 <= v < |pts| =>
      if inMst[v] then minEdge[v] else Min(Finite(w(pts[u], pts[v])), minEdge[v]))
  }

  /** Relaxation never raises a fringe value, and lowers it to the distance to u at most. */
  lemma RelaxedIsMinimum(pts: seq<Point>, w: (Point, Point) -> real, inMst: seq<bool>, minEdge: seq<Extended>, u: nat, v: nat)
    requires |inMst| == |pts| && |minEdge| == |pts| && u < |pts| && v < |pts| && !inMst[v]
    ensures var r := Relaxed(pts, w, inMst, minEdge, u)[v];
      && !Below(minEdge[v], r) && AtMost(r, w(pts[u], pts[v]))
      && (r == minEdge[v] || r == Finite(w(pts[u], pts[v])))
  {
    assert Relaxed(pts, w, inMst, minEdge, u)[v] == Min(Finite(w(pts[u], pts[v])), minEdge[v]);
  }

  // ---------------------------------------------------------------------------------
  // Specification of the whole computation.
  // ---------------------------------------------------------------------------------

  /** The total that the remaining `rounds` rounds add, starting from the given state: each
      round adds the selected node's fringe value, marks it and relaxes; a round that selects
      nothing ends the computation. */
  function Rounds(pts: seq<Point>, w: (Point, Point) -> real, inMst: seq<bool>, minEdge: seq<Extended>, rounds: nat)
    : (added: real)
    requires |inMst| == |pts| && |minEdge| == |pts|
    decreases rounds
  {
    if rounds == 0 then 0.0
    else
      var u := Select(inMst, minEdge);
      if u == |pts| then 0.0
      else
        var inMst' := inMst[u := true];
        minEdge[u].value + Rounds(pts, w, inMst', Relaxed(pts, w, inMst', minEdge, u), rounds - 1)
  }

  /** No node is in the tree yet. */
  function InitTree(n: nat): (inMst: seq<bool>) {
    seq(n, _ => false)
  }

  /** The start node 0 costs nothing; every other node is at the sentinel. */
  function InitFringe(n: nat): (minEdge: seq<Extended>) {
    seq(n, v => if v == 0 then Finite(0.0) else Infinity)
  }

  /** The length the program computes for a sequence of sites. */
  function PrimLength(pts: seq<Point>, w: (Point, Point) -> real): (total: real) {
    if |pts| <= 1 then 0.0
    else Rounds(pts, w, InitTree(|pts|), InitFringe(|pts|), |pts|)
  }

  // ---------------------------------------------------------------------------------
  // The fringe invariant and what it gives.
  // ---------------------------------------------------------------------------------

  /** Every outside node's fringe value is its distance to the nearest tree node: it is no
      greater than the distance to any tree node, and it is the distance to one of them. */
  ghost predicate FringeIsCut(pts: seq<Point>, w: (Point, Point) -> real, inMst: seq<bool>, minEdge: seq<Extended>) {
    && |inMst| == |pts| && |minEdge| == |pts|
    && (forall s, v :: 0 <= s < |pts| && 0 <= v < |pts| && inMst[s] && !inMst[v] ==>
          AtMost(minEdge[v], w(pts[s], pts[v])))
    && (forall v :: 0 <= v < |pts| && !inMst[v] && minEdge[v].Finite? ==>
          exists s :: 0 <= s < |pts| && inMst[s] && minEdge[v].value == w(pts[s], pts[v]))
  }

  /** Adding an outside node u to the tree and relaxing from it keeps the fringe invariant. */
  lemma RelaxKeepsCut(pts: seq<Point>, w: (Point, Point) -> real, inMst: seq<bool>, minEdge: seq<Extended>, u: nat)
    requires FringeIsCut(pts, w, inMst, minEdge) && u < |pts| && !inMst[u]
    ensures FringeIsCut(pts, w, inMst[u := true], Relaxed(pts, w, inMst[u := true], minEdge, u))
  {
    var inMst' := inMst[u := true];
    var r := Relaxed(pts, w, inMst', minEdge, u);
    forall v | 0 <= v < |pts| && !inMst'[v]
      ensures forall s :: 0 <= s < |pts| && inMst'[s] ==> AtMost(r[v], w(pts[s], pts[v]))
      ensures r[v].Finite? ==> exists s :: 0 <= s < |pts| && inMst'[s] && r[v].value == w(pts[s], pts[v])
    {
      RelaxedIsMinimum(pts, w, inMst', minEdge, u, v);
      if r[v] == Finite(w(pts[u], pts[v])) {
        assert inMst'[u];
      } else {
        assert r[v] == minEdge[v];
      }
    }
  }

  /** The number of nodes not yet in the tree. */
  function CountOutside(inMst: seq<bool>): (c: nat)
    ensures c <= |inMst|
  {
    if inMst == [] then 0
    else CountOutside(inMst[..|inMst| - 1]) + (if inMst[|inMst| - 1] then 0 else 1)
  }

  /** Marking an outside node removes exactly one node from the outside. */
  lemma {:induction false} CountOutsideMark(inMst: seq<bool>, u: nat)
    requires u < |inMst| && !inMst[u]
    ensures CountOutside(inMst[u := true]) == CountOutside(inMst) - 1
  {
    var k := |inMst| - 1;
    if u < k {
      assert inMst[u := true][..k] == inMst[..k][u := true];
      CountOutsideMark(inMst[..k], u);
    } else {
      assert inMst[u := true][..k] == inMst[..k];
    }
  }

  /** No node is outside exactly when every node is in the tree. */
  lemma {:induction false} CountOutsideZero(inMst: seq<bool>)
    ensures CountOutside(inMst) == 0 <==> forall v :: 0 <= v < |inMst| ==> inMst[v]
  {
    if inMst != [] {
      var k := |inMst| - 1;
      CountOutsideZero(inMst[..k]);
      assert forall v :: 0 <= v < k ==> inMst[..k][v] == inMst[v];
    }
  }

  /** Only the root is inside: n - 1 nodes are outside. */
  lemma {:induction false} CountOutsideRoot(n: nat)
    requires n >= 1
    ensures CountOutside(Root(n)) == n - 1
  {
    if n > 1 {
      assert Root(n)[..n - 1] == Root(n - 1);
      CountOutsideRoot(n - 1);
    }
  }

  /** With the fringe invariant and a non-empty tree, a round stops the algorithm only when
      every node is already in the tree: on a complete graph nothing is left unreached. */
  lemma SelectWithCut(pts: seq<Point>, w: (Point, Point) -> real, inMst: seq<bool>, minEdge: seq<Extended>)
    requires FringeIsCut(pts, w, inMst, minEdge) && true in inMst
    ensures Select(inMst, minEdge) == |pts| <==> forall v :: 0 <= v < |pts| ==> inMst[v]
  {
    SelectIsFirstMinimum(inMst, minEdge);
    var s :| 0 <= s < |inMst| && inMst[s];
    if exists v :: 0 <= v < |pts| && !inMst[v] {
      var v :| 0 <= v < |pts| && !inMst[v];
      assert AtMost(minEdge[v], w(pts[s], pts[v]));
    }
  }

  /** The first round selects the start node 0, which adds nothing to the total, and leaves
      exactly node 0 in the tree with every other node's fringe value its distance to node 0. */
  lemma StartRound(pts: seq<Point>, w: (Point, Point) -> real)
    requires |pts| >= 1
    ensures Select(InitTree(|pts|), InitFringe(|pts|)) == 0
    ensures InitFringe(|pts|)[0] == Finite(0.0)
    ensures InitTree(|pts|)[0 := true] == Root(|pts|)
    ensures FringeIsCut(pts, w, Root(|pts|), Relaxed(pts, w, Root(|pts|), InitFringe(|pts|), 0))
  {
    var n := |pts|;
    SelectIsFirstMinimum(InitTree(n), InitFringe(n));
    assert !InitTree(n)[0] && InitFringe(n)[0] == Finite(0.0);
    assert forall v :: 0 < v < n ==> InitFringe(n)[v] == Infinity;
    assert InitTree(n)[0 := true] == Root(n);
    var r := Relaxed(pts, w, Root(n), InitFringe(n), 0);
    forall v | 0 < v < n ensures r[v] == Finite(w(pts[0], pts[v])) {
    }
  }

  // ---------------------------------------------------------------------------------
  // Correctness of Prim's algorithm.
  // ---------------------------------------------------------------------------------

  /** The edge that a round adds is a lightest edge leaving the tree. */
  lemma SelectedIsLightest(pts: seq<Point>, w: (Point, Point) -> real, inMst: seq<bool>, minEdge: seq<Extended>)
    requires FringeIsCut(pts, w, inMst, minEdge) && Select(inMst, minEdge) < |pts|
    ensures var u := Select(inMst, minEdge);
      forall s, v :: 0 <= s < |pts| && 0 <= v < |pts| && inMst[s] && !inMst[v] ==> minEdge[u].value <= w(pts[s], pts[v])
  {
    var u := Select(inMst, minEdge);
    SelectIsFirstMinimum(inMst, minEdge);
    forall s, v | 0 <= s < |pts| && 0 <= v < |pts| && inMst[s] && !inMst[v]
      ensures minEdge[u].value <= w(pts[s], pts[v])
    {
      assert AtMost(minEdge[v], w(pts[s], pts[v]));
      assert !Below(minEdge[v], minEdge[u]);
    }
  }

  /** One round of `Rounds`, unfolded. */
  lemma RoundsStep(pts: seq<Point>, w: (Point, Point) -> real, inMst: seq<bool>, minEdge: seq<Extended>,
                   rounds: nat, later: nat)
    requires |inMst| == |pts| && |minEdge| == |pts| && rounds == later + 1 && Select(inMst, minEdge) < |pts|
    ensures var u := Select(inMst, minEdge);
      Rounds(pts, w, inMst, minEdge, rounds)
      == minEdge[u].value + Rounds(pts, w, inMst[u := true], Relaxed(pts, w, inMst[u := true], minEdge, u), later)
  {
  }

  /** Optimality: from a state with the fringe invariant, the remaining rounds add no more
      than the weight of any forest that attaches the outside nodes to the tree. */
  lemma {:induction false} RoundsAtMostGrowth(pts: seq<Point>, w: (Point, Point) -> real,
                                               inMst: seq<bool>, minEdge: seq<Extended>, rounds: nat, g: Growth)
    requires IsDistance(w) && FringeIsCut(pts, w, inMst, minEdge) && IsGrowth(inMst, g)
    ensures Rounds(pts, w, inMst, minEdge, rounds) <= TreeWeight(pts, w, inMst, g)
    decreases rounds
  {
    var u := Select(inMst, minEdge);
    if rounds > 0 && u < |pts| {
      SelectIsFirstMinimum(inMst, minEdge);
      SelectedIsLightest(pts, w, inMst, minEdge);
      var c := minEdge[u].value;
      var inMst' := inMst[u := true];
      var minEdge' := Relaxed(pts, w, inMst', minEdge, u);
      var later: nat := rounds - 1;
      var g' := Reroot(pts, w, inMst, g, u, c);
      RelaxKeepsCut(pts, w, inMst, minEdge, u);
      RoundsAtMostGrowth(pts, w, inMst', minEdge', later, g');
      RoundsStep(pts, w, inMst, minEdge, rounds, later);
    } else {
      WeightNonNegative(pts, w, inMst, g.parent, |pts|);
    }
  }

  /** Attainment: from a state with the fringe invariant and a non-empty tree, rounds enough
      for every outside node add exactly the weight of a forest that attaches all of them. */
  lemma {:induction false} RoundsIsGrowthWeight(pts: seq<Point>, w: (Point, Point) -> real,
                                                 inMst: seq<bool>, minEdge: seq<Extended>, rounds: nat)
    returns (g: Growth)
    requires IsDistance(w) && FringeIsCut(pts, w, inMst, minEdge) && true in inMst
    requires CountOutside(inMst) <= rounds
    ensures IsGrowth(inMst, g) && TreeWeight(pts, w, inMst, g) == Rounds(pts, w, inMst, minEdge, rounds)
    decreases rounds
  {
    var u := Select(inMst, minEdge);
    SelectWithCut(pts, w, inMst, minEdge);
    CountOutsideZero(inMst);
    if u == |pts| {
      g := EmptyGrowth(pts, w, inMst);
    } else {
      SelectIsFirstMinimum(inMst, minEdge);
      var inMst' := inMst[u := true];
      var minEdge' := Relaxed(pts, w, inMst', minEdge, u);
      var later: nat := rounds - 1;
      RelaxKeepsCut(pts, w, inMst, minEdge, u);
      CountOutsideMark(inMst, u);
      assert inMst'[u];
      var g' := RoundsIsGrowthWeight(pts, w, inMst', minEdge', later);
      var s :| 0 <= s < |pts| && inMst[s] && minEdge[u].value == w(pts[s], pts[u]);
      g := Attach(pts, w, inMst, g', u, s);
      RoundsStep(pts, w, inMst, minEdge, rounds, later);
    }
  }

  /** `PrimLength` is no greater than the weight of any spanning tree of the sites. */
  lemma PrimLengthIsMinimal(pts: seq<Point>, w: (Point, Point) -> real, g: Growth)
    requires IsDistance(w) && IsSpanningTree(|pts|, g)
    ensures PrimLength(pts, w) <= TreeWeight(pts, w, Root(|pts|), g)
  {
    var n := |pts|;
    WeightNonNegative(pts, w, Root(n), g.parent, n);
    if n > 1 {
      var later: nat := n - 1;
      StartRound(pts, w);
      RoundsStep(pts, w, InitTree(n), InitFringe(n), n, later);
      RoundsAtMostGrowth(pts, w, Root(n), Relaxed(pts, w, Root(n), InitFringe(n), 0), later, g);
    }
  }

  /** `PrimLength` is the weight of a spanning tree of the sites. */
  lemma PrimLengthIsTreeWeight(pts: seq<Point>, w: (Point, Point) -> real) returns (g: Growth)
    requires IsDistance(w) && |pts| >= 1
    ensures IsSpanningTree(|pts|, g) && TreeWeight(pts, w, Root(|pts|), g) == PrimLength(pts, w)
  {
    var n := |pts|;
    assert Root(n)[0];
    if n == 1 {
      g := EmptyGrowth(pts, w, Root(n));
    } else {
      var later: nat := n - 1;
      StartRound(pts, w);
      RoundsStep(pts, w, InitTree(n), InitFringe(n), n, later);
      CountOutsideRoot(n);
      g := RoundsIsGrowthWeight(pts, w, Root(n), Relaxed(pts, w, Root(n), InitFringe(n), 0), later);
    }
  }

  /** The state of mst_length after i rounds: the initial state when i == 0, and afterwards
      a tree holding node 0 and i - 1 further nodes, with the fringe invariant. */
  ghost predicate Progress(pts: seq<Point>, w: (Point, Point) -> real, i: nat, inMst: seq<bool>, minEdge: seq<Extended>) {
    && |inMst| == |pts| && |minEdge| == |pts|
    && (i == 0 ==> inMst == InitTree(|pts|) && minEdge == InitFringe(|pts|))
    && (i > 0 ==> FringeIsCut(pts, w, inMst, minEdge) && 0 < |pts| && inMst[0] && CountOutside(inMst) == |pts| - i)
  }

  /** Each of the n rounds of mst_length selects a node that was outside the tree, so none of
      them stops early; the node adds a non-negative amount, and the next state is again
      one of Progress. */
  lemma ProgressStep(pts: seq<Point>, w: (Point, Point) -> real, i: nat, inMst: seq<bool>, minEdge: seq<Extended>,
                     left: nat, later: nat)
    requires IsDistance(w) && Progress(pts, w, i, inMst, minEdge) && left == |pts| - i && left == later + 1
    ensures var u := Select(inMst, minEdge);
      && u < |pts| && !inMst[u] && minEdge[u].value >= 0.0
      && Progress(pts, w, i + 1, inMst[u := true], Relaxed(pts, w, inMst[u := true], minEdge, u))
      && Rounds(pts, w, inMst, minEdge, left)
         == minEdge[u].value + Rounds(pts, w, inMst[u := true], Relaxed(pts, w, inMst[u := true], minEdge, u), later)
  {
    var n := |pts|;
    var u := Select(inMst, minEdge);
    SelectIsFirstMinimum(inMst, minEdge);
    if i == 0 {
      StartRound(pts, w);
      CountOutsideRoot(n);
    } else {
      SelectWithCut(pts, w, inMst, minEdge);
      CountOutsideZero(inMst);
      RelaxKeepsCut(pts, w, inMst, minEdge, u);
      CountOutsideMark(inMst, u);
      var s :| 0 <= s < n && inMst[s] && minEdge[u].value == w(pts[s], pts[u]);
    }
    RoundsStep(pts, w, inMst, minEdge, left, later);
  }

  // ---------------------------------------------------------------------------------
  // The program: mst_length and its two inner loops.
  // ---------------------------------------------------------------------------------

  /** The candidate scan of one round: returns the lowest-index node outside the tree whose
      fringe value is least, or `inMst.Length` when every outside node is at the sentinel. */
  method SelectCheapest(inMst: array<bool>, minEdge: array<Extended>) returns (u: nat)
    requires inMst.Length == minEdge.Length
    ensures u == Select(inMst[..], minEdge[..])
    ensures u == inMst.Length <==> forall v :: 0 <= v < inMst.Length && !inMst[v] ==> minEdge[v] == Infinity
    ensures u < inMst.Length ==> !inMst[u] && minEdge[u].Finite?
    ensures u < inMst.Length ==> forall v :: 0 <= v < inMst.Length && !inMst[v] ==> !Below(minEdge[v], minEdge[u])
    ensures u < inMst.Length ==> forall v :: 0 <= v < u && !inMst[v] ==> Below(minEdge[u], minEdge[v])
  {
    var n := inMst.Length;
    var best := Infinity;
    u := n;
    for j := 0 to n
      invariant u == ScanFrom(inMst[..], minEdge[..], j)
      invariant best == BestOf(minEdge[..], u)
    {
      if !inMst[j] && Below(minEdge[j], best) {
        best := minEdge[j];
        u := j;
      }
    }
    SelectIsFirstMinimum(inMst[..], minEdge[..]);
  }

  /** The relaxation step of one round, after u has been marked: every node still outside the
      tree keeps the smaller of its fringe value and its distance to u. */
  method RelaxFrom(pts: seq<Point>, w: (Point, Point) -> real, inMst: array<bool>, minEdge: array<Extended>, u: nat)
    requires inMst.Length == |pts| && minEdge.Length == |pts| && u < |pts|
    modifies minEdge
    ensures minEdge[..] == Relaxed(pts, w, inMst[..], old(minEdge[..]), u)
  {
    ghost var before := minEdge[..];
    for v := 0 to |pts|
      invariant forall k :: 0 <= k < v ==> minEdge[k] == Relaxed(pts, w, inMst[..], before, u)[k]
      invariant forall k :: v <= k < |pts| ==> minEdge[k] == before[k]
    {
      if !inMst[v] {
        var d := w(pts[u], pts[v]);
        minEdge[v] := Min(Finite(d), minEdge[v]);
      }
    }
  }

  /** mst_length: the length of a minimum spanning tree of the sites, by Prim's algorithm
      from node 0. `inTree` is the final tree membership (labelled empty when the early return
      for fewer than two sites is taken): every site ends up in the tree. */
  method MstLength(pts: seq<Point>, w: (Point, Point) -> real) returns (total: real, ghost inTree: seq<bool>)
    requires IsDistance(w)
    ensures total == PrimLength(pts, w)
    ensures total >= 0.0
    ensures |pts| <= 1 ==> total == 0.0 && inTree == []
    ensures |pts| >= 2 ==> inTree == seq(|pts|, _ => true)
  {
    var n := |pts|;
    if n <= 1 {
      return 0.0, [];
    }
    var inMst := new bool[n](_ => false);
    var minEdge := new Extended[n](_ => Infinity);
    minEdge[0] := Finite(0.0);
    total := 0.0;
    assert inMst[..] == InitTree(n) && minEdge[..] == InitFringe(n);
    ghost var left: nat := n;
    for i := 0 to n
      invariant left == n - i
      invariant Progress(pts, w, i, inMst[..], minEdge[..])
      invariant total + Rounds(pts, w, inMst[..], minEdge[..], left) == PrimLength(pts, w)
      invariant total >= 0.0
    {
      ghost var tree, fringe := inMst[..], minEdge[..];
      ghost var later: nat := left - 1;
      ProgressStep(pts, w, i, tree, fringe, left, later);
      var u := SelectCheapest(inMst, minEdge);
      if u == n {
        // Never taken: while i < n some node is still outside, and on a complete graph every
        // outside node has a real fringe value.
        break;
      }
      inMst[u] := true;
      total := total + minEdge[u].value;
      RelaxFrom(pts, w, inMst, minEdge, u);
      assert inMst[..] == tree[u := true];
      left := later;
    }
    CountOutsideZero(inMst[..]);
    inTree := inMst[..];
  }
}
