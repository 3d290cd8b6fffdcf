/**
 * The triangular mesh that the two-dimensional finite-element space, the
 * quadrature maps and the boundary vectors read (Mesh2D.h / Mesh2D.cpp):
 * element count, node count, edge count, the node array, the element-to-node
 * table, the edge list, the edge-incidence matrix and the edge-id matrix.
 * It is a value here; UniformRectangularMesh2D builds one.
 */
module TriangularMesh {
  import opened Boundary

  /** A mesh vertex (MeshNode2D in Meshing/Nodes.h). */
  datatype MeshNode2D = MeshNode2D(x: real, y: real, bc: BC, isCorner: bool)

  /** An n-by-m table of integers stored as rows. */
  predicate IsTable(t: seq<seq<int>>, n: nat, m: nat)
  {
    |t| == n && forall i :: 0 <= i < n ==> |t[i]| == m
  }

  /** An edge with end points a and b joins I and J, in one direction or the other. */
  predicate SameEnds(a: int, b: int, I: int, J: int)
  {
    (a == I && b == J) || (a == J && b == I)
  }

  datatype Mesh2D = Mesh2D(
    size: nat,
    numNodes: nat,
    numEdges: nat,
    meshNodes: seq<MeshNode2D>,
    connectivity: seq<seq<int>>,
    edgeArray: seq<seq<int>>,
    edgeTypeMatrix: seq<seq<int>>,
    edgeMatrix: seq<seq<int>>,
    numBoundaryNodes: int)
  {
    /**
     * The table shapes and index ranges, and the agreement of the edge tables
     * with the elements: any two vertices of one element have a positive
     * incidence entry and an edge id whose edge joins exactly those two vertices.
     */
    ghost predicate Valid()
    {
      && EdgesValid()
      && IsTable(connectivity, size, 3)
      && (forall K, v :: 0 <= K < size && 0 <= v < 3 ==> 0 <= connectivity[K][v] < numNodes)
      && (forall K, i, j :: 0 <= K < size && 0 <= i < 3 && 0 <= j < 3 && i != j ==>
            ElementEdge(connectivity[K][i], connectivity[K][j]))
    }

    /** The node array, the edge list and the two node-by-node edge tables have their shapes. */
    ghost predicate EdgesValid()
    {
      && |meshNodes| == numNodes
      && IsTable(edgeArray, numEdges, 2)
      && (forall e :: 0 <= e < numEdges ==> 0 <= edgeArray[e][0] < edgeArray[e][1] < numNodes)
      && IsTable(edgeTypeMatrix, numNodes, numNodes)
      && IsTable(edgeMatrix, numNodes, numNodes)
    }

    /** Vertices I and J are joined by an edge that the edge tables know about. */
    ghost predicate ElementEdge(I: int, J: int)
      requires |meshNodes| == numNodes && IsTable(edgeArray, numEdges, 2)
      requires IsTable(edgeTypeMatrix, numNodes, numNodes) && IsTable(edgeMatrix, numNodes, numNodes)
      requires 0 <= I < numNodes && 0 <= J < numNodes
    {
      && edgeTypeMatrix[I][J] > 0
      && 1 <= edgeMatrix[I][J] <= numEdges
      && SameEnds(edgeArray[edgeMatrix[I][J] - 1][0], edgeArray[edgeMatrix[I][J] - 1][1], I, J)
    }

    /** `mesh(elementIndex, nodeIndex)`: vertex `nodeIndex` of the element. */
    function Node(elementIndex: int, nodeIndex: int): (node: MeshNode2D)
      requires Valid() && 0 <= elementIndex < size && 0 <= nodeIndex < 3
      ensures node in meshNodes
    {
      meshNodes[connectivity[elementIndex][nodeIndex]]
    }
  }
}
