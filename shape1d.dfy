/**
 * One-dimensional Lagrange shape functions (Functions/LagrangeShapeFunctions1D.cpp).
 * On [-1, 1] the j-th basis polynomial through the nodes t_0 .. t_p is the
 * product of (t - t_i) / (t_j - t_i) over the other nodes; its derivative of
 * order d is the sum over the other nodes t_i of the derivative of order
 * d - 1 of the same product without t_i, divided by (t_j - t_i). On an element
 * [xL, xR] the variable is t = 2 (x - xL) / (xR - xL) - 1, and each
 * derivative picks up one factor 2 / (xR - xL).
 */
module Shape1D {
  import opened Vectors

  /** The Lagrange product over `nodes`, accumulated from the front. */
  function LagrangeProduct(t: real, tj: real, nodes: seq<real>): real
    requires tj !in nodes
  {
    if |nodes| == 0 then 1.0
    else
      var ti := nodes[|nodes| - 1];
      assert nodes == nodes[..|nodes| - 1] + [ti];
      LagrangeProduct(t, tj, nodes[..|nodes| - 1]) * ((t - ti) / (tj - ti))
  }

  /** `refLagrangePolynomial1D`: the derivative of order d of the product, by the recursive sum for d > 0. */
  function RefLagrange(t: real, tj: real, nodes: seq<real>, d: nat): real
    requires tj !in nodes
    decreases d, 1
  {
    if d == 0 then LagrangeProduct(t, tj, nodes) else DerivativeSum(t, tj, nodes, d, |nodes|)
  }

  /** The first k terms of the sum for a derivative of order d > 0. */
  function DerivativeSum(t: real, tj: real, nodes: seq<real>, d: nat, k: nat): real
    requires tj !in nodes && d > 0 && k <= |nodes|
    decreases d, 0, k
  {
    if k == 0 then 0.0
    else
      RemoveAtKeeps(nodes, k - 1, tj);
      DerivativeSum(t, tj, nodes, d, k - 1) + RefLagrange(t, tj, RemoveAt(nodes, k - 1), d - 1) / (tj - nodes[k - 1])
  }

  /** Removing an entry cannot bring in a value that was absent. */
  lemma RemoveAtKeeps(s: seq<real>, k: nat, v: real)
    requires k < |s| && v !in s
    ensures v !in RemoveAt(s, k)
  {
  }

  /** Kronecker delta, first half: the product is 1 at its own node t_j. */
  lemma {:induction false} ProductAtOwnNode(tj: real, nodes: seq<real>)
    requires tj !in nodes
    ensures LagrangeProduct(tj, tj, nodes) == 1.0
  {
    if |nodes| > 0 {
      var ti := nodes[|nodes| - 1];
      assert nodes == nodes[..|nodes| - 1] + [ti];
      ProductAtOwnNode(tj, nodes[..|nodes| - 1]);
      assert (tj - ti) / (tj - ti) == 1.0;
    }
  }

  /** Kronecker delta, second half: the product vanishes at every other node. */
  lemma {:induction false} ProductAtOtherNode(tj: real, nodes: seq<real>, m: nat)
    requires tj !in nodes && m < |nodes|
    ensures LagrangeProduct(nodes[m], tj, nodes) == 0.0
  {
    var front := nodes[..|nodes| - 1];
    var ti := nodes[|nodes| - 1];
    assert nodes == front + [ti];
    if m == |nodes| - 1 {
      assert (nodes[m] - ti) / (tj - ti) == 0.0;
    } else {
      assert front[m] == nodes[m];
      ProductAtOtherNode(tj, front, m);
    }
  }

  /** Derivatives of order higher than the number of factors vanish: the product has that degree. */
  lemma {:induction false} HighDerivativeVanishes(t: real, tj: real, nodes: seq<real>, d: nat)
    requires tj !in nodes && d > |nodes|
    ensures RefLagrange(t, tj, nodes, d) == 0.0
    decreases d
  {
    DerivativeSumVanishes(t, tj, nodes, d, |nodes|);
  }

  lemma {:induction false} DerivativeSumVanishes(t: real, tj: real, nodes: seq<real>, d: nat, k: nat)
    requires tj !in nodes && d > |nodes| && k <= |nodes|
    ensures DerivativeSum(t, tj, nodes, d, k) == 0.0
    decreases d, k
  {
    if k > 0 {
      RemoveAtKeeps(nodes, k - 1, tj);
      DerivativeSumVanishes(t, tj, nodes, d, k - 1);
      HighDerivativeVanishes(t, tj, RemoveAt(nodes, k - 1), d - 1);
    }
  }

  /** `s` raised to the power `d`. */
  function Power(s: real, d: nat): real
  {
    if d == 0 then 1.0 else Power(s, d - 1) * s
  }

  /** `refLagrangePolynomial1D`, with its product loop, its sum loop and its recursive calls. */
  method RefLagrangePolynomial1D(t: real, tj: real, refNodes: seq<real>, derivativeOrder: nat) returns (v: real)
    requires tj !in refNodes
    ensures v == RefLagrange(t, tj, refNodes, derivativeOrder)
    decreases derivativeOrder
  {
    if derivativeOrder == 0 {
      var prod := 1.0;
      for i := 0 to |refNodes|
        invariant prod == LagrangeProduct(t, tj, refNodes[..i])
      {
        var ti := refNodes[i];
        assert refNodes[..i + 1][..i] == refNodes[..i];
        prod := prod * ((t - ti) / (tj - ti));
      }
      assert refNodes[..|refNodes|] == refNodes;
      return prod;
    } else {
      var sum := 0.0;
      for i := 0 to |refNodes|
        invariant sum == DerivativeSum(t, tj, refNodes, derivativeOrder, i)
      {
        var ti := refNodes[i];
        var refNodesCopy := RemoveAt(refNodes, i);
        RemoveAtKeeps(refNodes, i, tj);
        var inner := RefLagrangePolynomial1D(t, tj, refNodesCopy, derivativeOrder - 1);
        sum := sum + inner / (tj - ti);
      }
      return sum;
    }
  }

  /** Consecutive coordinates increase. */
  predicate Increasing(xs: seq<real>)
  {
    forall i :: 0 <= i < |xs| - 1 ==> xs[i] < xs[i + 1]
  }

  lemma {:induction false} IncreasingOrdered(xs: seq<real>, i: nat, j: nat)
    requires Increasing(xs) && i < j < |xs|
    ensures xs[i] < xs[j]
    decreases j - i
  {
    if i + 1 < j {
      IncreasingOrdered(xs, i + 1, j);
    }
  }

  /** The factor 2 / (xR - xL) each derivative picks up. */
  function Scaling(xs: seq<real>): real
    requires |xs| >= 2 && xs[0] < xs[|xs| - 1]
  {
    2.0 / (xs[|xs| - 1] - xs[0])
  }

  /** The element coordinates mapped onto [-1, 1]. */
  function ToReference(xs: seq<real>, x: real): real
    requires |xs| >= 2 && xs[0] < xs[|xs| - 1]
  {
    Scaling(xs) * (x - xs[0]) - 1.0
  }

  function ReferenceNodes(xs: seq<real>): (r: seq<real>)
    requires |xs| >= 2 && xs[0] < xs[|xs| - 1]
    ensures |r| == |xs| && forall i :: 0 <= i < |xs| ==> r[i] == ToReference(xs, xs[i])
  {
    seq(|xs|, i requires 0 <= i < |xs| => ToReference(xs, xs[i]))
  }

  /** Mapping to the reference element preserves strict order. */
  lemma ToReferenceMonotone(xs: seq<real>, a: real, b: real)
    requires |xs| >= 2 && xs[0] < xs[|xs| - 1] && a < b
    ensures ToReference(xs, a) < ToReference(xs, b)
  {
    var s := Scaling(xs);
    assert s > 0.0;
    ScaleMonotone(s, a - xs[0], b - xs[0]);
  }

  lemma ScaleMonotone(s: real, a: real, b: real)
    requires s > 0.0 && a < b
    ensures s * a < s * b
  {
    assert s * b - s * a == s * (b - a);
  }

  /** With strictly increasing coordinates, the node removed for shape j is absent from the rest. */
  lemma ReferenceNodesDistinct(xs: seq<real>, j: nat)
    requires |xs| >= 2 && Increasing(xs) && j < |xs|
    ensures xs[0] < xs[|xs| - 1]
    ensures ReferenceNodes(xs)[j] !in RemoveAt(ReferenceNodes(xs), j)
    ensures forall m :: 0 <= m < |xs| && m != j ==> ReferenceNodes(xs)[m] != ReferenceNodes(xs)[j]
  {
    IncreasingOrdered(xs, 0, |xs| - 1);
    var r := ReferenceNodes(xs);
    forall m | 0 <= m < |xs| && m != j
      ensures r[m] != r[j]
    {
      if m < j {
        IncreasingOrdered(xs, m, j);
        ToReferenceMonotone(xs, xs[m], xs[j]);
      } else {
        IncreasingOrdered(xs, j, m);
        ToReferenceMonotone(xs, xs[j], xs[m]);
      }
    }
    RemoveAtSkip(r, j);
  }

  /** Shape j of the element with node coordinates `xs`, or its derivative of order d, at x. */
  function ShapeValue(xs: seq<real>, x: real, j: nat, d: nat): real
    requires |xs| >= 2 && Increasing(xs) && j < |xs|
  {
    ReferenceNodesDistinct(xs, j);
    var refs := ReferenceNodes(xs);
    Power(Scaling(xs), d) * RefLagrange(ToReference(xs, x), refs[j], RemoveAt(refs, j), d)
  }

  /** Shape j is 1 at the element's node j and 0 at its other nodes. */
  lemma ShapeKronecker(xs: seq<real>, j: nat, m: nat)
    requires |xs| >= 2 && Increasing(xs) && j < |xs| && m < |xs|
    ensures ShapeValue(xs, xs[m], j, 0) == if m == j then 1.0 else 0.0
  {
    ReferenceNodesDistinct(xs, j);
    var refs := ReferenceNodes(xs);
    var others := RemoveAt(refs, j);
    assert ToReference(xs, xs[m]) == refs[m];
    if m == j {
      ProductAtOwnNode(refs[j], others);
    } else {
      RemoveAtSkip(refs, j);
      var k := if m < j then m else m - 1;
      assert others[k] == refs[m];
      ProductAtOtherNode(refs[j], others, k);
    }
  }

  /** Derivatives of shape functions of degree p vanish from order p + 1 on. */
  lemma ShapeHighDerivative(xs: seq<real>, x: real, j: nat, d: nat)
    requires |xs| >= 2 && Increasing(xs) && j < |xs| && d >= |xs|
    ensures ShapeValue(xs, x, j, d) == 0.0
  {
    ReferenceNodesDistinct(xs, j);
    var refs := ReferenceNodes(xs);
    HighDerivativeVanishes(ToReference(xs, x), refs[j], RemoveAt(refs, j), d);
  }

  /** The element's node coordinates mapped onto [-1, 1], one by one as the source does. */
  method MapNodes(xs: seq<real>, scaling: real) returns (refNodes: seq<real>)
    requires |xs| >= 2 && xs[0] < xs[|xs| - 1] && scaling == Scaling(xs)
    ensures refNodes == ReferenceNodes(xs)
  {
    var buffer := new real[|xs|];
    for i := 0 to |xs|
      invariant forall k :: 0 <= k < i ==> buffer[k] == ToReference(xs, xs[k])
    {
      buffer[i] := scaling * (xs[i] - xs[0]) - 1.0;
    }
    refNodes := buffer[..];
  }

  /** scaling^d by repeated multiplication. */
  method RaiseTo(scaling: real, d: nat) returns (multiplier: real)
    ensures multiplier == Power(scaling, d)
  {
    multiplier := 1.0;
    for i := 0 to d
      invariant multiplier == Power(scaling, i)
    {
      multiplier := multiplier * scaling;
    }
  }

  /** The scaling 2 / (xR - xL) of the element and the reference coordinate t of x. */
  method ReferenceCoordinate(xs: seq<real>, x: real) returns (scaling: real, t: real)
    requires |xs| >= 2 && xs[0] < xs[|xs| - 1]
    ensures scaling == Scaling(xs) && t == ToReference(xs, x)
  {
    var xL := xs[0];
    var xR := xs[|xs| - 1];
    scaling := 2.0 / (xR - xL);
    t := scaling * (x - xL) - 1.0;
  }

  /** The reference node of local node j, and the reference nodes of the others in order. */
  method SplitNodes(xs: seq<real>, scaling: real, j: nat) returns (tj: real, others: seq<real>)
    requires |xs| >= 2 && Increasing(xs) && j < |xs| && xs[0] < xs[|xs| - 1] && scaling == Scaling(xs)
    ensures ReferenceNodes(xs)[j] == tj && tj !in others
    ensures others == RemoveAt(ReferenceNodes(xs), j)
  {
    ReferenceNodesDistinct(xs, j);
    var refNodes := MapNodes(xs, scaling);
    tj := refNodes[j];
    others := RemoveAt(refNodes, j);
  }

  /**
   * `lagrangeShapeFunction1D`: shape j of the element whose node coordinates
   * are `xs` (fem(K, 0).x .. fem(K, p).x), or its derivative of order d, at x:
   * the reference polynomial at t times scaling^d.
   */
  method LagrangeShapeFunction1D(x: real, xs: seq<real>, nodeIndex: int, derivativeOrder: nat) returns (v: real)
    requires |xs| >= 2 && Increasing(xs) && 0 <= nodeIndex < |xs|
    requires xs[0] <= x <= xs[|xs| - 1]
    ensures v == ShapeValue(xs, x, nodeIndex, derivativeOrder)
  {
    var j := nodeIndex;
    IncreasingOrdered(xs, 0, |xs| - 1);
    var scaling, t := ReferenceCoordinate(xs, x);
    var tj, others := SplitNodes(xs, scaling, j);
    var multiplier := RaiseTo(scaling, derivativeOrder);
    var ref := RefLagrangePolynomial1D(t, tj, others, derivativeOrder);
    v := multiplier * ref;
  }
}
