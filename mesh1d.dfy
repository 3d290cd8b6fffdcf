/**
 * The uniform one-dimensional mesh (UniformMesh1D.cpp): `size` elements of
 * equal length on [xL, xR], with nodes numbered from left to right, element
 * `i` joining nodes `i` and `i + 1`, and boundary tags on the two end nodes.
 */
module Mesh1D {
  import opened Boundary

  /** The two ends of a one-dimensional element (EdgeType in BoundayEnums.h). */
  datatype EdgeType = Left | Right
  {
    function Index(): nat
    {
      if Left? then 0 else 1
    }
  }

  /** A mesh node: its coordinate and its boundary tag (MeshNode1D in Meshing/Nodes.h). */
  datatype MeshNode1D = MeshNode1D(x: real, bc: BC)

  /** The coordinate of node `i` of the uniform mesh with `n` elements on [xL, xR]. */
  function NodeX(xL: real, xR: real, n: nat, i: nat): real
    requires n > 0
  {
    xL + (i as real) * (xR - xL) / (n as real)
  }

  /** The first node is at xL and the last at xR. */
  lemma NodeXEnds(xL: real, xR: real, n: nat)
    requires n > 0
    ensures NodeX(xL, xR, n, 0) == xL && NodeX(xL, xR, n, n) == xR
  {
  }

  /** Node coordinates are strictly increasing, and every element has length (xR - xL) / n. */
  lemma NodeXIncreasing(xL: real, xR: real, n: nat, i: nat, j: nat)
    requires n > 0 && xL < xR && i < j
    ensures NodeX(xL, xR, n, i) < NodeX(xL, xR, n, j)
    ensures NodeX(xL, xR, n, i + 1) - NodeX(xL, xR, n, i) == (xR - xL) / (n as real)
  {
    var h := (xR - xL) / (n as real);
    assert h > 0.0;
    assert NodeX(xL, xR, n, i) == xL + (i as real) * h;
    assert NodeX(xL, xR, n, j) == xL + (j as real) * h;
    assert NodeX(xL, xR, n, i + 1) == xL + (i as real) * h + h;
  }

  /** How many of the nodes carry a constrained tag. */
  function CountConstrained(nodes: seq<MeshNode1D>): (c: nat)
    ensures c <= |nodes|
  {
    if |nodes| == 0 then 0
    else CountConstrained(nodes[..|nodes| - 1]) + (if nodes[|nodes| - 1].bc.IsConstrained() then 1 else 0)
  }

  /** When only the two end nodes can be constrained, the count is the number of constrained ends. */
  lemma {:induction false} CountEnds(nodes: seq<MeshNode1D>)
    requires |nodes| >= 2
    requires forall i :: 0 < i < |nodes| - 1 ==> nodes[i].bc == Interior
    ensures CountConstrained(nodes) ==
      (if nodes[0].bc.IsConstrained() then 1 else 0) + (if nodes[|nodes| - 1].bc.IsConstrained() then 1 else 0)
  {
    var front := nodes[..|nodes| - 1];
    CountInterior(front);
  }

  /** A prefix whose nodes after the first are Interior counts only its first node. */
  lemma {:induction false} CountInterior(nodes: seq<MeshNode1D>)
    requires |nodes| >= 1
    requires forall i :: 0 < i < |nodes| ==> nodes[i].bc == Interior
    ensures CountConstrained(nodes) == if nodes[0].bc.IsConstrained() then 1 else 0
    decreases |nodes|
  {
    if |nodes| > 1 {
      var front := nodes[..|nodes| - 1];
      CountInterior(front);
      assert CountConstrained(nodes) == CountConstrained(front) + 0;
    }
  }

  class UniformMesh1D {
    const size: nat
    const xL: real
    const xR: real
    var numBoundaryNodes: int
    const meshNodes: array<MeshNode1D>
    const connectivity: array2<int>

    /** The numbering the constructor sets up; only the end nodes are ever tagged. */
    ghost predicate Valid()
      reads this, meshNodes, connectivity
    {
      && size > 0 && xL < xR
      && meshNodes.Length == size + 1
      && connectivity.Length0 == size && connectivity.Length1 == 2
      && (forall i :: 0 <= i < size ==> connectivity[i, 0] == i && connectivity[i, 1] == i + 1)
      && (forall i :: 0 <= i <= size ==> meshNodes[i].x == NodeX(xL, xR, size, i))
      && (forall i :: 0 < i < size ==> meshNodes[i].bc == Interior)
    }

    /** `size` elements on [leftEndPoint, rightEndPoint]; every node starts Interior. */
    constructor (leftEndPoint: real, rightEndPoint: real, n: int)
      requires n > 0 && leftEndPoint < rightEndPoint
      ensures Valid() && fresh(meshNodes) && fresh(connectivity)
      ensures size == n && xL == leftEndPoint && xR == rightEndPoint && numBoundaryNodes == -1
      ensures forall i :: 0 <= i <= size ==> meshNodes[i].bc == Interior
    {
      size := n;
      xL := leftEndPoint;
      xR := rightEndPoint;
      numBoundaryNodes := -1;
      var nodes := new MeshNode1D[n + 1](_ => MeshNode1D(0.0, Interior));
      var conn := new int[n, 2];
      nodes[0] := MeshNode1D(NodeX(leftEndPoint, rightEndPoint, n, 0), Interior);
      var i := 0;
      while i < n
        invariant 0 <= i <= n
        invariant forall k :: 0 <= k <= i ==> nodes[k] == MeshNode1D(NodeX(leftEndPoint, rightEndPoint, n, k), Interior)
        invariant forall k :: i < k <= n ==> nodes[k].bc == Interior
        invariant forall k :: 0 <= k < i ==> conn[k, 0] == k && conn[k, 1] == k + 1
      {
        nodes[i + 1] := MeshNode1D(NodeX(leftEndPoint, rightEndPoint, n, i + 1), Interior);
        conn[i, EdgeType.Left.Index()] := i;
        conn[i, EdgeType.Right.Index()] := i + 1;
        i := i + 1;
      }
      meshNodes := nodes;
      connectivity := conn;
    }

    /** `mesh(elementIndex, edge)`: the node at the left or right end of the element. */
    method Node(elementIndex: int, edge: EdgeType) returns (node: MeshNode1D)
      requires Valid() && 0 <= elementIndex < size
      ensures node == meshNodes[elementIndex + edge.Index()]
      ensures node.x == NodeX(xL, xR, size, elementIndex + edge.Index())
    {
      node := meshNodes[connectivity[elementIndex, edge.Index()]];
    }

    /**
     * Tags the two end nodes; the count of boundary nodes becomes the number
     * of constrained ends when there is one, and is left alone otherwise.
     */
    method SetBoundaryConditions(left: BC, right: BC)
      requires Valid()
      modifies this, meshNodes
      ensures Valid()
      ensures meshNodes[..] == old(meshNodes[..])[0 := old(meshNodes[0]).(bc := left)][size := old(meshNodes[size]).(bc := right)]
      ensures numBoundaryNodes ==
        if left.IsConstrained() && right.IsConstrained() then 2
        else if left.IsConstrained() || right.IsConstrained() then 1
        else old(numBoundaryNodes)
      ensures left.IsConstrained() || right.IsConstrained() ==> numBoundaryNodes == CountConstrained(meshNodes[..])
    {
      meshNodes[0] := meshNodes[0].(bc := left);
      meshNodes[size] := meshNodes[size].(bc := right);
      if left.Value() >= 0 && right.Value() >= 0 {
        numBoundaryNodes := 2;
      } else if left.Value() >= 0 || right.Value() >= 0 {
        numBoundaryNodes := 1;
      }
      CountEnds(meshNodes[..]);
    }
  }
}
