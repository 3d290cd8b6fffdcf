# Finite-element core, modelled in Dafny

This project models the core of a small C++ finite-element library. The library solves partial differential equations on the line and in the plane. The model covers its building blocks:

- dense linear algebra: a `Vector` and a `Matrix` class with element access, arithmetic, row and column removal, the cofactor determinant and an in-place LU solve;
- Gauss–Legendre quadrature on the reference interval, the reference triangle and their images on mesh elements and edges;
- Lagrange shape functions of degree 1 and 2, in one and two dimensions, including the pull-back to a mesh triangle;
- the uniform 1D mesh and the uniform rectangular 2D mesh of bisected cells, with its edge-type, edge-array and edge-id tables;
- the finite-element spaces `FEM1D` and `FEM2D`: the numbering of degrees of freedom (DOFs), the connectivity table, the boundary list, interpolation and evaluation;
- assembly of mass matrices and load vectors, and the L2 projection;
- the essential- and natural-boundary vectors;
- the two elliptic solvers, which remove constrained DOFs, solve the reduced system and re-insert zeros;
- the Stokes solver, which builds the saddle-point system with a mean-pressure multiplier.

Each imperative part of the source is a Dafny class over arrays or sequences, or a method with loops. Each such method is proved against a specification function on values. The properties the library promises are lemmas about those functions. Examples are the remove/insert round trip, the symmetry of the assembled and saddle-point matrices, the Kronecker and partition-of-unity properties of the shape functions, the exact contents of the mesh tables and the solution of the triangular systems.

Reals are exact in this model, so there are no overflow, rounding, infinity or NaN cases.

## Model

| member | source | states |
|---|---|---|
| `Vectors.Vector.constructor` | LinearAlgebra/Vector.cpp:4-10 | a new vector of `size` entries, all zero |
| `Vectors.Vector.Get` | LinearAlgebra/Vector.cpp:40-47 | reads entry `index`; the index must lie in [0, n), as the debug checks demand |
| `Vectors.Vector.Set` | LinearAlgebra/Vector.cpp:31-38 | writing through `v[index]` changes entry `index` and no other |
| `Vectors.Vector.AddTo` | LinearAlgebra/Vector.cpp:31-38 | `v[index] += x` raises entry `index` by `x` and leaves the rest alone |
| `Vectors.Vector.Plus` | LinearAlgebra/Vector.cpp:49-58 | `v + w` is a new vector of the same length whose entries are the entrywise sums |
| `Vectors.Vector.Remove` | LinearAlgebra/Vector.cpp:60-74 | after `remove(index)` the vector is one shorter, entries before `index` stay, entries after it move down one place |
| `Vectors.Vector.Insert` | LinearAlgebra/Vector.cpp:76-95 | after `insert(a, index)` the vector is one longer, `a` sits at `index` (also when `index == n`), later entries move up one place |
| `Vectors.RemoveAt` | LinearAlgebra/Vector.cpp:66-73 | the value `remove` leaves: length one less, prefix kept, suffix shifted down |
| `Vectors.InsertAt` | LinearAlgebra/Vector.cpp:82-94 | the value `insert` leaves: length one more, `a` at `index`, prefix kept, suffix shifted up |
| `Vectors.RemoveInserted` | LinearAlgebra/Vector.cpp:60-95 | removing the entry just inserted at `k` gives the original vector back |
| `Vectors.InsertRemoved` | LinearAlgebra/Vector.cpp:60-95 | re-inserting a removed entry at its old index gives the original vector back |
| `Matrices.Matrix.constructor` | Matrix.cpp:9-15 | a new `rows`-by-`columns` matrix of zeros |
| `Matrices.Matrix.Square` | Matrix.cpp:4-7 | `Matrix(size)` is the `size`-by-`size` zero matrix |
| `Matrices.Matrix.Get` | Matrix.cpp:42-49 | reads entry (i, j); the row must lie in [0, n) as the debug checks demand |
| `Matrices.Matrix.Set` | Matrix.cpp:33-40 | writing `M[i][j]` changes that entry and no other |
| `Matrices.Matrix.AddTo` | Matrix.cpp:33-40 | `M[i][j] += x` raises that entry by `x` and leaves the rest alone |
| `Matrices.Matrix.Plus` | Matrix.cpp:51-63 | `M + N` is a new matrix of the same shape holding the entrywise sums |
| `Matrices.Matrix.ScaleBy` | Matrix.cpp:65-70 | `M *= s` multiplies every entry by `s` |
| `Matrices.Matrix.DivideBy` | Matrix.cpp:72-77 | `M /= s` divides every entry by `s`, i.e. scales by `1 / s` |
| `Matrices.Matrix.RemoveRowAndCol` | Matrix.cpp:79-90 | the matrix loses row and column `k`; every other entry moves up and left past `k`; both dimensions drop by one |
| `Matrices.WithoutRowAndCol` | Matrix.cpp:81-85 | the copying loop of `removeRowAndCol` fills the smaller buffer with exactly the entries outside row and column `k` |
| `Matrices.RemoveRowColEntries` | Matrix.cpp:84-85 | entry (i, j) outside row and column `k` lands at (i − [i > k], j − [j > k]) |
| `Matrices.Matrix.SubMatrixOf` | Matrix.cpp:92-101 | `subMatrix(k)` is a new (n−1)-by-(m−1) matrix: the rows after the first, each without column `k` |
| `Matrices.SourceDeterminantAgrees` | Matrix.cpp:142-156 | from size two on, the determinant as written equals the cofactor expansion along the first row with the 2×2 formula as base case |
| `Matrices.SourceDeterminantOneByOne` | Matrix.cpp:147-154 | on the 1×1 matrix [[1]] the code as written returns 0, while the determinant is 1 |
| `Matrices.DeterminantOfZeroRow` | Matrix.cpp:142-156 | a matrix whose first row is zero has determinant 0, both as written and as corrected, at every size from one on |
| `Matrices.DeterminantOfIdentity` | Matrix.cpp:142-156 | the corrected determinant of the identity is 1 at every size |
| `Matrices.VertexDeterminant` | Functions/Gauss-LegendreNodes.cpp:232-236 | the determinant of the vertex matrix [[x1, y1, 1], [x2, y2, 1], [x3, y3, 1]] is the cross product of the edge vectors from the first vertex |
| `Matrices.EliminationRound` | Matrix.cpp:169-174 | one pass of the elimination loop for pivot `k` stores the multipliers below the pivot and updates the trailing block, in place |
| `Matrices.Factorize` | Matrix.cpp:167-174 | the whole elimination loop leaves the unit lower factor strictly below the diagonal and the upper factor on and above it |
| `Matrices.RowDot` | Matrix.cpp:180-182 | the inner loop of both substitutions sums `A[i][j] * x[j]` over the given column range |
| `Matrices.ForwardSubstitute` | Matrix.cpp:176-184 | forward substitution (`x[0] = b[0]`, then `x[i] = b[i] − Σ_{j<i} L[i][j] x[j]`) in place |
| `Matrices.ForwardSolvesLower` | Matrix.cpp:176-184 | the forward-substituted vector d satisfies L d = b row by row |
| `Matrices.BackSubstitute` | Matrix.cpp:186-194 | back substitution (`x[n−1] /= U[n−1][n−1]`, then `x[i] = (x[i] − Σ_{j>i} U[i][j] x[j]) / U[i][i]`) in place |
| `Matrices.BackSolvesUpper` | Matrix.cpp:186-194 | the back-substituted vector x satisfies U x = d row by row when every pivot is nonzero |
| `Matrices.SolutionSatisfiesFactors` | Matrix.cpp:158-197 | the vector `solve` returns satisfies L (U x) = b for the factors it computed |
| `Matrices.Solve` | Matrix.cpp:158-197 | `solve(A, b)` overwrites `A` with its factors and returns the forward-then-back substituted solution |
| `Quadrature.Gauss1DNodesRef` | Functions/Gauss-LegendreNodes.cpp:92-114 | a table exists exactly for 2 to 7 nodes (otherwise an error); it has `numNodes` entries, strictly increasing, inside (−1, 1) |
| `Quadrature.Gauss1DWeightsRef` | Functions/Gauss-LegendreNodes.cpp:116-138 | a table exists exactly for 2 to 7 nodes; it has `numNodes` entries, all positive |
| `Quadrature.TwoPointWeightSum` | Functions/Gauss-LegendreNodes.cpp:10-11 | the two-point weights are 1 and 1 and sum to 2, the length of [−1, 1] |
| `Quadrature.Gauss2DNodesRef` | Functions/Gauss-LegendreNodes.cpp:166-178 | only the 7-point triangle rule exists; its 7 nodes lie in the closed reference triangle |
| `Quadrature.Gauss2DWeightsRef` | Functions/Gauss-LegendreNodes.cpp:180-192 | only the 7-point rule exists; its 7 weights are positive |
| `Quadrature.AffineToEnds` | Functions/Gauss-LegendreNodes.cpp:148 | the map t ↦ (b − a) t / 2 + (a + b) / 2 sends −1 to a and 1 to b |
| `Quadrature.AffineToMonotone` | Functions/Gauss-LegendreNodes.cpp:148 | for a < b the map preserves order |
| `Quadrature.AffineToInside` | Functions/Gauss-LegendreNodes.cpp:148 | for a < b the map sends (−1, 1) into (a, b) |
| `Quadrature.AffineImage` | Functions/Gauss-LegendreNodes.cpp:146-149 | the node loop maps every reference node through the affine map; increasing nodes inside (−1, 1) stay increasing and land inside (a, b) |
| `Quadrature.ScaledWeights` | Functions/Gauss-LegendreNodes.cpp:158-161 | the weight loop multiplies every weight by the same factor; positive weights stay positive for a positive factor |
| `Quadrature.Gauss1DNodesLocal` | Functions/Gauss-LegendreNodes.cpp:140-150 | defined exactly for 2 to 7 nodes; the nodes are the reference nodes mapped onto the element, increasing and strictly inside it |
| `Quadrature.Gauss1DWeightsLocal` | Functions/Gauss-LegendreNodes.cpp:152-162 | defined exactly for 2 to 7 nodes; the weights are the reference weights times half the element length, all positive |
| `Quadrature.MapToElementBarycentric` | Functions/Gauss-LegendreNodes.cpp:203-212 | x = B t + A1 sends the reference vertices to A1, A2, A3 and t to the point with barycentric coordinates (1 − tx − ty, tx, ty) |
| `Quadrature.AreaIsJacobian` | Functions/Gauss-LegendreNodes.cpp:225-236 | twice the area computed from the vertex determinant equals the absolute value of det B |
| `Quadrature.TriangleImage` | Functions/Gauss-LegendreNodes.cpp:207-213 | the triangle node loop maps every reference point through B t + A1, i.e. to its barycentric point |
| `Quadrature.Gauss2DNodesLocal` | Functions/Gauss-LegendreNodes.cpp:194-214 | defined exactly for 7 nodes; each node is the image of a reference node, with non-negative barycentric coordinates, so it lies in the element |
| `Quadrature.Gauss2DWeightsLocal` | Functions/Gauss-LegendreNodes.cpp:216-245 | defined exactly for 7 nodes; the weights are 2·area·w = |det B|·w, all positive; a degenerate element is excluded as the debug check does |
| `Quadrature.AlongEdgeSegment` | Functions/Gauss-LegendreNodes.cpp:256-257 | the edge map sends −1 to A1, 1 to A2 and t to the convex combination with weight (1 + t)/2 on A2 |
| `Quadrature.EdgeImage` | Functions/Gauss-LegendreNodes.cpp:253-259 | the edge node loop places every reference node on the segment, strictly between the ends for nodes inside (−1, 1) |
| `Quadrature.GaussEdgeNodesLocal` | Functions/Gauss-LegendreNodes.cpp:247-260 | defined exactly for 2 to 7 nodes; the nodes lie strictly between the edge's two ends, in the edge list's order |
| `Quadrature.GaussEdgeWeightsLocal` | Functions/Gauss-LegendreNodes.cpp:262-275 | defined exactly for 2 to 7 nodes; the weights are the reference weights times half the edge length |
| `Shape1D.ProductAtOwnNode` | Functions/LagrangeShapeFunctions1D.cpp:41-51 | the Lagrange product of node j equals 1 at t_j |
| `Shape1D.ProductAtOtherNode` | Functions/LagrangeShapeFunctions1D.cpp:41-51 | the Lagrange product of node j vanishes at every other node |
| `Shape1D.HighDerivativeVanishes` | Functions/LagrangeShapeFunctions1D.cpp:52-67 | the recursive derivative of order d vanishes once d exceeds the number of factors (the polynomial's degree) |
| `Shape1D.RefLagrangePolynomial1D` | Functions/LagrangeShapeFunctions1D.cpp:39-68 | the product loop, the sum loop and the recursion over copies with node i erased compute the reference polynomial's derivative of the requested order |
| `Shape1D.ReferenceNodesDistinct` | Functions/LagrangeShapeFunctions1D.cpp:20-29 | for increasing element coordinates the mapped nodes are distinct, so t_j is absent from the list after its erasure and no quotient divides by zero |
| `Shape1D.ToReferenceMonotone` | Functions/LagrangeShapeFunctions1D.cpp:15-16 | t = 2 (x − xL)/(xR − xL) − 1 preserves order |
| `Shape1D.ShapeKronecker` | Functions/LagrangeShapeFunctions1D.cpp:4-37 | shape j equals 1 at the element's node j and 0 at its other nodes |
| `Shape1D.ShapeHighDerivative` | Functions/LagrangeShapeFunctions1D.cpp:4-37 | derivatives of a degree-p shape vanish from order p + 1 on |
| `Shape1D.MapNodes` | Functions/LagrangeShapeFunctions1D.cpp:21-23 | the mapping loop sends every node coordinate of the element to its reference coordinate |
| `Shape1D.RaiseTo` | Functions/LagrangeShapeFunctions1D.cpp:32-34 | the multiplier loop computes scaling^d |
| `Shape1D.ReferenceCoordinate` | Functions/LagrangeShapeFunctions1D.cpp:13-16 | the scaling is 2 / (xR − xL) and t is the reference coordinate of x |
| `Shape1D.SplitNodes` | Functions/LagrangeShapeFunctions1D.cpp:25-27 | t_j is node j's reference coordinate and the rest are the others in order, without t_j |
| `Shape1D.LagrangeShapeFunction1D` | Functions/LagrangeShapeFunctions1D.cpp:4-37 | the value is the reference polynomial's derivative at t times scaling^d, for x inside the element as the debug check demands |
| `Shape2D.Degree1` | Functions/LagrangeShapeFunctions2D.cpp:22-66 | the degree-1 functions 1 − tx − ty, tx, ty; every derivative of total order two or more is zero |
| `Shape2D.Degree2` | Functions/LagrangeShapeFunctions2D.cpp:68-215 | the degree-2 functions; every derivative of total order three or more is zero |
| `Shape2D.RefLagrange2D` | Functions/LagrangeShapeFunctions2D.cpp:4-20 | a value exactly for degrees 1 and 2; any other degree is the "polynomial order not supported" error |
| `Shape2D.Degree1PartitionOfUnity` | Functions/LagrangeShapeFunctions2D.cpp:31-62 | the three degree-1 functions sum to 1 and each derivative of their sum is 0 |
| `Shape2D.Degree1Kronecker` | Functions/LagrangeShapeFunctions2D.cpp:31-40 | degree-1 function j is 1 at reference vertex j and 0 at the other two |
| `Shape2D.Degree1Exact` | Functions/LagrangeShapeFunctions2D.cpp:31-60 | the degree-1 derivatives are those of the value formula: a step (h, k) changes the value by exactly h·∂x + k·∂y |
| `Shape2D.Degree2PartitionOfUnity` | Functions/LagrangeShapeFunctions2D.cpp:77-211 | the six degree-2 functions sum to 1 and every derivative of their sum is 0 |
| `Shape2D.Degree2Kronecker` | Functions/LagrangeShapeFunctions2D.cpp:81-96 | degree-2 function j is 1 at reference node j (vertices, then edge midpoints) and 0 at the other five |
| `Shape2D.Degree2Taylor` | Functions/LagrangeShapeFunctions2D.cpp:81-209 | the first and second derivatives are those of the value formula: the second-order Taylor expansion is exact for every step |
| `Shape2D.Degree2SecondConstant` | Functions/LagrangeShapeFunctions2D.cpp:141-209 | the second derivatives of the degree-2 functions do not depend on the point |
| `PullBack2D.TransformationDet` | Functions/LagrangeShapeFunctions2D.h:59-66 | det B of B = [A2 − A1 \| A3 − A1] is the Jacobian of the element map |
| `PullBack2D.PullBack` | Functions/LagrangeShapeFunctions2D.h:78-94 | defined exactly for degrees 1 and 2 and derivative orders (0,0), (1,0), (0,1); otherwise the matching error |
| `PullBack2D.ShapeFunction2D` | Functions/LagrangeShapeFunctions2D.h:47-95 | defined for the same cases as the pull-back; needs an invertible B and t near the reference triangle, as the debug checks do |
| `PullBackProperties2D.ApplyInverse` | Functions/LagrangeShapeFunctions2D.h:64-72 | the swapped, negated and divided matrix is the inverse of B on both sides |
| `PullBackProperties2D.MapIsAffine` | Functions/LagrangeShapeFunctions2D.h:59-62 | the element map is t ↦ B t + A1 |
| `PullBackProperties2D.MapOfToReference` | Functions/LagrangeShapeFunctions2D.h:74-75 | mapping the reference point of P back onto the element gives P |
| `PullBackProperties2D.ToReferenceOfMap` | Functions/LagrangeShapeFunctions2D.h:74-75 | the reference point of the image of t is t |
| `PullBackProperties2D.PullBackPartitionOfUnity` | Functions/LagrangeShapeFunctions2D.h:78-89 | the pulled-back functions sum to 1, and their x- and y-derivatives sum to 0 |
| `PullBackProperties2D.ShapePartitionOfUnity2D` | Functions/LagrangeShapeFunctions2D.h:47-95 | on a physical triangle the shape functions sum to 1 and their first derivatives sum to 0 |
| `PullBackProperties2D.ShapeExact2D` | Functions/LagrangeShapeFunctions2D.h:78-89 | the chain rule is right: a degree-1 shape function changes by exactly h·∂x + k·∂y under a step (h, k) |
| `PullBackProperties2D.ShapeKronecker2D` | Functions/LagrangeShapeFunctions2D.h:47-95 | shape j is 1 at the image of reference node j and 0 at the images of the other nodes |
| `Boundary.ConstrainedTags` | BoundayEnums.h:16-24 | the tags have distinct values, and a tag is constrained (value ≥ 0) exactly when it is neither Interior nor Natural |
| `Mesh1D.NodeXEnds` | UniformMesh1D.cpp:12-16 | node 0 sits at xL and node n at xR |
| `Mesh1D.NodeXIncreasing` | UniformMesh1D.cpp:12-16 | node coordinates strictly increase, and consecutive nodes are (xR − xL)/n apart |
| `Mesh1D.CountEnds` | UniformMesh1D.cpp:43-52 | with interior nodes untagged, the constrained nodes are the constrained ends |
| `Mesh1D.UniformMesh1D.constructor` | UniformMesh1D.cpp:4-20 | n elements on [xL, xR], node i + 1 at xL + (i + 1)(xR − xL)/n, element i joining nodes i and i + 1, every node Interior; needs n > 0 and xL < xR as the debug checks do |
| `Mesh1D.UniformMesh1D.Node` | UniformMesh1D.cpp:29-36 | `mesh(K, Left)` is node K and `mesh(K, Right)` is node K + 1, at their grid coordinates |
| `Mesh1D.UniformMesh1D.SetBoundaryConditions` | UniformMesh1D.cpp:43-52 | only the two end tags change; the boundary-node count becomes 2, 1 or stays as it was, which is the number of constrained nodes whenever one end is constrained |
| `FiniteElements1D.ConnectivityShared` | FEM1D.cpp:30-35 | element e's last DOF is element e + 1's first DOF, and each row increases |
| `FiniteElements1D.ConnectivityBounds` | FEM1D.cpp:30-35 | every table entry names one of the size·p + 1 DOFs |
| `FiniteElements1D.ElementDofs` | FEM1D.cpp:28-38 | DOF e·p + j sits at xL + j (xR − xL)/p of element e; its tag is the left vertex's for j = 0, the right vertex's for j = p, Interior otherwise |
| `FiniteElements1D.BoundaryListSorted` | FEM1D.cpp:39-46 | the boundary index list is strictly increasing |
| `FiniteElements1D.BoundaryListSound` | FEM1D.cpp:39-46 | every listed index is a DOF whose tag is constrained |
| `FiniteElements1D.BoundaryListComplete` | FEM1D.cpp:39-46 | every DOF whose tag is constrained is listed |
| `FiniteElements1D.BoundaryListIsConstrainedDofs` | FEM1D.cpp:39-46 | the list holds exactly the constrained DOFs and is as long as the number of constrained mesh nodes |
| `FiniteElements1D.InterpolantAtNode` | FEM1D.cpp:159-177 | at the element's node m the evaluation returns that node's value |
| `FiniteElements1D.InterpolantHighDerivative` | FEM1D.cpp:159-177 | derivatives of order above p of the element's interpolant vanish |
| `FiniteElements1D.SubdivisionIncreasing` | FEM1D.cpp:30-35 | the element's DOF coordinates start at xL, end at xR and strictly increase |
| `FiniteElements1D.QuadratureOfZero` | FEM1D.cpp:112-129 | the quadrature sum of an element whose nodal values are all zero is zero |
| `FiniteElements1D.PlaceElementDofs` | FEM1D.cpp:30-34 | the inner loop sets the coordinates of DOFs e·p .. e·p + p − 1 and touches nothing else |
| `FiniteElements1D.ElementRow` | FEM1D.cpp:30-35 | the element's table row is e·p, e·p + 1, .., (e + 1)·p |
| `FiniteElements1D.BuildSpace` | FEM1D.cpp:18-46 | the constructor's loops give every DOF its coordinate and tag, fill the element table, and list the constrained DOFs in order |
| `FiniteElements1D.BuildElement` | FEM1D.cpp:25-41 | one pass of the element loop extends the placed DOFs, the table and the boundary list by element e |
| `FiniteElements1D.ShapeSum` | FEM1D.cpp:170-176 | the evaluation loop sums nodal value times shape function over the element's nodes |
| `FiniteElements1D.QuadratureLoop` | FEM1D.cpp:122-128 | the quadrature loop sums weight times interpolant over the points |
| `FiniteElements1D.FEM1D.constructor` | FEM1D.cpp:5-47 | Ng = size·p + 1 and Nu = Ng − numBoundaryNodes; every DOF starts with its coordinate and tag and value 0; needs p > 0 and boundary conditions already set, as the debug checks do |
| `FiniteElements1D.FEM1D.WithInitialCondition` | FEM1D.cpp:49-57 | the same space, with every DOF's value set to f at its coordinate |
| `FiniteElements1D.FEM1D.Element` | FEM1D.cpp:73-89 | `fem[K]` is the row K·p, .., K·p + p |
| `FiniteElements1D.FEM1D.SetU` | FEM1D.cpp:91-100 | writing the value of `fem(K, j)` changes that DOF's value and nothing else |
| `FiniteElements1D.FEM1D.NodeAt` | FEM1D.cpp:91-100 | `fem(K, j)` is the DOF the table names, at the element's j-th coordinate |
| `FiniteElements1D.FEM1D.EvaluateIn` | FEM1D.cpp:159-177 | `evaluate(x, K, d)` is the element's interpolant (or its d-th derivative) at x, for x in the element as the debug check demands |
| `FiniteElements1D.FEM1D.FindElement` | FEM1D.cpp:141-152 | the search returns the first element containing x, or −1 exactly when none does |
| `FiniteElements1D.FEM1D.Evaluate` | FEM1D.cpp:139-157 | succeeds exactly when some element contains x and then evaluates in the first one; otherwise the outside-the-domain error |
| `FiniteElements1D.FEM1D.IntegrateElement` | FEM1D.cpp:112-129 | defined exactly for 2 to 7 Gauss points; the value is the quadrature sum over the element |
| `FiniteElements1D.FEM1D.Integrate` | FEM1D.cpp:131-137 | defined exactly for 2 to 7 Gauss points; the value is the sum of the element integrals |
| `FiniteElements1D.FEM1D.AddElement` | FEM1D.cpp:134-135 | one pass of the integration loop adds element K's integral or reports the unsupported order |
| `FiniteElements1D.FEM1D.IntegralOfZero` | FEM1D.cpp:131-137 | with every nodal value zero the integral is zero |
| `FiniteElements1D.BoundaryListScaled` | FEM1D.cpp:38-46 | the listed DOFs are the constrained mesh vertices' indices times p, in the same order |
| `FiniteElements1D.BoundaryVerticesSpec` | FEM1D.cpp:38-46 | the constrained vertices among the first n are listed in increasing order, all of them and only them |
| `FiniteElements1D.ShapeAt` | FEM1D.cpp:174 | one call of the 1D shape function inside the evaluation loop gives the j-th Lagrange basis value |
| `FiniteElements1D.FEM1D.ElementCoords` | FEM1D.cpp:28-35 | the element's p + 1 DOF coordinates increase from its left vertex to its right vertex |
| `FiniteElements1D.FEM1D.ElementDofCoords` | FEM1D.cpp:91-100 | reading `fem(K, j).x` for j = 0 .. p gives the element's subdivision points |
| `FiniteElements1D.FEM1D.WeightedSamples` | FEM1D.cpp:122-128 | the quadrature loop over element K gives the weighted sum of the interpolant at the points |
| `Assembly.LoadElementEntry` | L2Projection.cpp:14-25 | after element K's pass, entry I has grown by the sum of the local products whose DOF is I |
| `Assembly.LoadEntry` | L2Projection.cpp:8-27 | entry I of the assembled load vector is the sum of every element's contributions aimed at DOF I |
| `Assembly.ElementShareAbsent` | L2Projection.cpp:24 | an element whose row does not name DOF I adds nothing to entry I |
| `Assembly.LoadUntouched` | L2Projection.cpp:8-27 | a DOF no element names keeps the value 0 |
| `Assembly.ScatterLoad` | L2Projection.cpp:14-25 | the local loop adds each local product into the vector at the DOF the row names, and changes nothing else |
| `Assembly.MassColsEntry` | L2Projection.cpp:54-66 | after columns 0 .. j − 1 of local row i, entry (I, J) has grown by the products aimed at (I, J) |
| `Assembly.MassElementEntry` | L2Projection.cpp:53-66 | after element K, entry (I, J) has grown by the sum of its local pairs aimed at (I, J) |
| `Assembly.MassEntry` | L2Projection.cpp:47-68 | entry (I, J) of the assembled matrix is the sum of every element's pairs aimed at (I, J) |
| `Assembly.RowShareAbsent` | L2Projection.cpp:65 | a local row that does not meet (I, J) adds nothing there |
| `Assembly.PairShareAbsent` | L2Projection.cpp:53-66 | an element with no pair of local DOFs at (I, J) adds nothing there |
| `Assembly.MassUnshared` | L2Projection.cpp:47-68 | two DOFs that share no element have a zero matrix entry |
| `Assembly.ColumnsShareStep` | L2Projection.cpp:53-66 | reading the local pairs column by column gives the same running sum, one row at a time |
| `Assembly.ColumnsShareNoRows` | L2Projection.cpp:53-66 | no rows read means no contribution |
| `Assembly.RowsColumnsAgree` | L2Projection.cpp:53-66 | summing an element's pairs by rows or by columns gives the same value |
| `Assembly.ColumnIsTransposedRow` | L2Projection.cpp:61-62 | with a symmetric local product, a column share at (I, J) equals the row share at (J, I) |
| `Assembly.ColumnsAreTransposedRows` | L2Projection.cpp:53-66 | with a symmetric local product, the column-wise sum at (I, J) equals the row-wise sum at (J, I) |
| `Assembly.PairShareSymmetric` | L2Projection.cpp:53-66 | with a symmetric local product, an element's contribution at (I, J) equals its contribution at (J, I) |
| `Assembly.MassSymmetric` | L2Projection.cpp:30-33 | the matrix assembled with one table and a symmetric local product is symmetric |
| `Assembly.MassShareSymmetric` | L2Projection.cpp:47-68 | the total contribution aimed at (I, J) equals the one aimed at (J, I) |
| `Assembly.ScatterMass` | L2Projection.cpp:53-66 | the local double loop adds every local pair into the matrix at (row1[i], row2[j]) and changes nothing else |
| `Assembly.ScatterMassRow` | L2Projection.cpp:54-66 | the inner loop for local row i adds that row's pairs and changes nothing else |
| `Assembly.InRowWitness` | L2Projection.cpp:77-79 | a DOF met in the first j entries of a row has an index there |
| `Assembly.CoveredIff` | L2Projection.cpp:77-79 | a DOF is covered by the first k rows exactly when some entry of them names it |
| `Assembly.AssembleLoad` | L2Projection.cpp:6-28 | from a zero vector, the element loop leaves the assembled load vector |
| `Assembly.AssembleMass` | L2Projection/L2Projection.h:173-211 | from a zero matrix, the element loop over two tables leaves the assembled mass matrix |
| `Assembly.QuadratureProductSymmetric` | L2Projection.cpp:57-64 | the quadrature sum of a·φ_i·φ_j is unchanged when the two shape samples swap |
| `Assembly.QuadratureIntegratorSymmetric` | L2Projection.cpp:40-43 | a local product that is such a quadrature sum with one derivative order on both sides is symmetric |
| `Assembly.FilledStep` | EquationSytem1D.cpp:27-40 | writing the next DOF of a partly filled vector moves the filled prefix by one |
| `Assembly.SubtractedHomogeneous` | EquationSytem1D.cpp:31-35 | with zero prescribed values the subtracted boundary terms leave the entry as it was |
| `Assembly.SubtractedReadsBoundary` | EquationSytem1D.cpp:31-35 | the boundary terms read the matrix row and the values only at the boundary indices |
| `Assembly.SubtractedLinear` | EquationSytem1D.cpp:31-35 | the boundary terms are linear in the prescribed values |
| `Elimination.IncreasingSpread` | FEM1D.cpp:38-46 | in a strictly increasing index list the k-th entry is at least the first plus k |
| `Elimination.SortedIndicesFit` | Elliptic2DABCF.cpp:27-41 | a sorted list of indices below n has at most n entries, and its first entry leaves room for the rest |
| `Elimination.SortedCount` | Elliptic2DABCF.cpp:27-41 | a sorted list of indices below n is empty or no longer than n |
| `Elimination.RemoveIndices` | Elliptic2DABCF.cpp:27-41 | removing the listed entries from the last to the first shortens the sequence by the list's length |
| `Elimination.InsertZeros` | Elliptic2DABCF.cpp:47-51 | inserting a zero at each listed index from the first to the last lengthens the sequence by the list's length |
| `Elimination.RemoveAtUpdate` | LinearAlgebra/Vector.cpp:60-74 | writing an entry before a removed position commutes with the removal |
| `Elimination.InsertAtRemoveAt` | LinearAlgebra/Vector.cpp:60-95 | removing entry b and inserting x there is the same as overwriting entry b with x |
| `Elimination.RemoveIndicesUpdate` | Elliptic2DABCF.cpp:27-41 | writing an entry before every listed index commutes with the removal |
| `Elimination.ReinsertAfterRemoval` | Elliptic2DABCF.cpp:27-51 | removing the boundary entries and inserting zeros back yields the original vector with zeros at the boundary |
| `Elimination.InsertZerosKeepsBelow` | Elliptic2DABCF.cpp:47-51 | an entry before every listed index keeps its place after the insertions |
| `Elimination.InsertZerosAtBoundary` | Elliptic2DABCF.cpp:47-51 | after the insertions every listed index holds zero |
| `Elimination.RemoveAfterReinsert` | Elliptic2DABCF.cpp:27-51 | inserting zeros and removing the same indices gives back the reduced vector |
| `Elimination.ShiftedIndices` | StokesFluid.cpp:125-134 | a shifted sorted list is sorted and fits the longer vector |
| `Elimination.InsertZerosPrefix` | StokesFluid.cpp:119-124 | inserting zeros into a prefix leaves the rest of the vector after it |
| `Elimination.InsertZerosSuffix` | StokesFluid.cpp:125-134 | inserting zeros at shifted indices only touches the part after the prefix |
| `Elimination.RemoveRowsCols` | Elliptic2DABCF.cpp:27-41 | removing every listed row and column keeps the matrix square and shrinks it by the list's length |
| `Elimination.RemoveIndicesRows` | StokesFluid.cpp:50-51 | after the rows are removed every remaining row keeps its width |
| `Elimination.ByRowsEntry` | Matrix.cpp:79-90 | removing row and column b from the row-trimmed matrix equals trimming the row-removed one |
| `Elimination.RemoveRowsColsByRows` | Matrix.cpp:79-90 | removing rows and columns together equals removing the rows, then the entries of each row |
| `Elimination.RemoveRowsAndColumns` | StokesFluid.cpp:50-51 | removing the listed rows and the listed columns gives a matrix short by both counts |
| `Elimination.RemoveIndicesStep` | Elliptic2DABCF.cpp:27-41 | one pass of the removal loop removes index B[n] from what later passes left |
| `Elimination.SuffixSorted` | Elliptic2DABCF.cpp:27-41 | every suffix of a sorted in-range list is sorted and in range |
| `Elimination.RemoveRowsColsStep` | Elliptic2DABCF.cpp:27-41 | one pass of the matrix removal loop removes row and column B[n] |
| `Elimination.RemoveBoundaryIndices` | Elliptic2DABCF.cpp:27-41 | the removal loop over a vector leaves the entries off the list, in order |
| `Elimination.RemoveBoundaryRowsCols` | Elliptic2DABCF.cpp:27-41 | the removal loop over a square matrix leaves the rows and columns off the list |
| `Elimination.RemoveEachRowStep` | StokesFluid.cpp:50-51 | one pass of the column removal removes column B[n] |
| `Elimination.WithoutRow` | Matrix.cpp:79-90 | a copy of the matrix without row k |
| `Elimination.WithoutColumn` | Matrix.cpp:79-90 | a copy of the matrix without column k |
| `Elimination.RemoveBoundaryRowsAndColumns` | StokesFluid.cpp:50-51 | removes the listed rows and the listed columns of a rectangular matrix |
| `Elimination.InsertZerosStep` | Elliptic2DABCF.cpp:47-51 | one pass of the insertion loop inserts the zero at B[n] before the later ones |
| `Elimination.InsertBoundaryZeros` | Elliptic2DABCF.cpp:47-51 | the insertion loop leaves the vector with a zero inserted at every listed index |
| `Projection1D.ConnectivityFits` | FEM1D.cpp:30-35 | the 1D element table has rows of p + 1 DOFs, all below Ng |
| `Projection1D.MassBanded` | L2Projection.cpp:45-69 | the 1D mass matrix is zero wherever the DOFs are more than p apart |
| `Projection1D.MassSymmetric1D` | L2Projection.cpp:30-43 | with a symmetric local product the 1D mass matrix is symmetric |
| `Projection1D.CoveredUpTo` | L2Projection.cpp:77-79 | every DOF up to k·p is named by one of the first k elements |
| `Projection1D.AllCovered` | L2Projection.cpp:77-79 | every DOF of the 1D space is named by some element, so the write-back reaches all of them |
| `Projection1D.LoadVector1D` | L2Projection.cpp:6-28 | `FE_LoadVector1D` returns a vector of length Ng holding the assembled load |
| `Projection1D.MassMatrix1D` | L2Projection.cpp:45-69 | `FE_MassMatrix1D` returns an Ng-by-Ng matrix holding the assembled mass matrix |
| `Projection1D.WriteBackElement1D` | L2Projection.cpp:78-79 | element K's pass sets the value of every DOF its row names to its coefficient and changes nothing else |
| `Projection1D.WriteBack1D` | L2Projection.cpp:77-79 | after the loop every DOF some element names holds its coefficient, coordinates and tags unchanged |
| `Projection1D.ProjectionCoefficients` | L2Projection.cpp:73-75 | the coefficients are the LU solution of M c = b for the assembled M and b |
| `Projection1D.L2Projection` | L2Projection.cpp:71-80 | every node's value becomes its coefficient of M c = b; coordinates and tags stay |
| `Projection2D.Table` | Meshing/2D/FEM2D.h:199-206 | the 2D table has one row of (p + 1)(p + 2)/2 DOFs per element, all below Ng |
| `Projection2D.TableRange` | Meshing/2D/FEM2D.h:94-147 | every 2D table entry is a DOF of the space |
| `Projection2D.LoadVector2D` | L2Projection/L2Projection.h:63-89 | `FE_LoadVector2D` returns a vector of length Ng holding the assembled load |
| `Projection2D.MassMatrixPair` | L2Projection/L2Projection.h:173-211 | the two-space `FE_MassMatrix2D` returns an Ng1-by-Ng2 matrix holding the pairs of the two tables |
| `Projection2D.MassMatrix2D` | L2Projection/L2Projection.h:127-131 | the one-space `FE_MassMatrix2D` is the pair routine with the same space twice |
| `Projection2D.MassMatrix2DShape` | L2Projection/L2Projection.h:173-211 | the one-space mass matrix is symmetric for a symmetric local product and zero at DOFs no element shares |
| `Projection2D.UnknownCounts` | Meshing/2D/FEM2D.h:40 | every node of a valid space carries N unknowns |
| `Projection2D.WriteBackElement2D` | L2Projection/L2Projection.h:277-278 | element K's pass sets unknown 0 of every DOF its row names to its coefficient and changes nothing else |
| `Projection2D.WriteBack2D` | L2Projection/L2Projection.h:276-278 | after the loop unknown 0 of every DOF some element names holds its coefficient; the other DOFs and fields stay |
| `Projection2D.ProjectionCoefficients2D` | L2Projection/L2Projection.h:272-274 | the coefficients are the LU solution of M c = b for the assembled 2D M and b |
| `Projection2D.L2Projection2D` | L2Projection/L2Projection.h:265-279 | the write-back of the solution of M c = b into unknown 0 |
| `EquationSystem1D.VisitedOnce` | EquationSytem1D.cpp:7-20 | thanks to the skip, no DOF is visited twice by the element loops |
| `EquationSystem1D.EveryDofVisited` | EquationSytem1D.cpp:7-20 | every DOF is visited once: DOF I is a visited local node of some element |
| `EquationSystem1D.ElementVisit` | EquationSytem1D.cpp:17-19 | element K visits the consecutive DOFs K·p .. K·p + p − 1, and the last element visits K·p + p too |
| `EquationSystem1D.WriteNatural` | EquationSytem1D.cpp:10-15 | the body writes the natural data at a natural node, negated at the left end, and leaves other nodes' entries alone |
| `EquationSystem1D.NaturalElement` | EquationSytem1D.cpp:8-20 | element K's pass extends the filled prefix by the DOFs it visits |
| `EquationSystem1D.NaturalBoundaryVector` | EquationSytem1D.cpp:4-22 | every entry is its DOF's natural value: g(x) at a natural node, −g(x) at the left end, 0 elsewhere |
| `EquationSystem1D.BoundaryIndicesInRange` | FEM1D.cpp:38-46 | the boundary list of a valid 1D space names DOFs of the space |
| `EquationSystem1D.SubtractBoundaryTerms` | EquationSytem1D.cpp:31-35 | the innermost loop subtracts M[d][i]·u_i for each boundary index i, in order, from entry d only |
| `EquationSystem1D.EssentialElement` | EquationSytem1D.cpp:28-40 | element K's pass extends the filled prefix by the DOFs it visits |
| `EquationSystem1D.EssentialBoundaryVector` | EquationSytem1D.cpp:24-42 | every entry I is 0 minus the sum over boundary indices i of M[I][i]·u_i |
| `EquationSystem1D.EssentialVectorVanishes` | EquationSytem1D.cpp:24-42 | with no constrained DOF or with zero prescribed values the essential vector entry is zero |
| `EquationSystem2D.SpaceFacts` | Meshing/2D/FEM2D.h:40-162 | the boundary list of a valid 2D space names its DOFs and every node carries N unknowns |
| `EquationSystem2D.EssentialVector` | EquationSystems/2D/EquationSystem2D.h:35-46 | entry i is 0 minus the sum over fem2's boundary indices j of M[i][j]·u_j |
| `EquationSystem2D.EssentialVectorHomogeneous` | EquationSystems/2D/EquationSystem2D.h:35-46 | zero prescribed values give the zero vector |
| `EquationSystem2D.SubtractBoundaryColumns` | EquationSystems/2D/EquationSystem2D.h:40-44 | the inner loop subtracts the boundary terms from entry i only |
| `EquationSystem2D.EssentialBoundaryVectorPair` | EquationSystems/2D/EquationSystem2D.h:35-46 | the two-space routine returns the essential vector of length Ng1 for unknown varIndex of fem2 |
| `EquationSystem2D.EssentialBoundaryVector2D` | EquationSystems/2D/EquationSystem2D.h:30-34 | the one-space routine is the pair routine with the same space twice |
| `EquationSystem2D.VertexPair` | EquationSystems/2D/EquationSystem2D.h:57-58 | the q-th of the three vertex pairs (i, j) with i < j |
| `EquationSystem2D.NaturalEdge` | EquationSystems/2D/EquationSystem2D.h:60-71 | the edge index of a boundary edge with a natural end, or −1 when the pair is skipped |
| `EquationSystem2D.NaturalPairsUntouched` | EquationSystems/2D/EquationSystem2D.h:57-90 | DOFs outside element K's row keep their entries through its pass |
| `EquationSystem2D.NaturalSupport` | EquationSystems/2D/EquationSystem2D.h:49-95 | a DOF that no element with a natural edge names has entry 0 |
| `EquationSystem2D.NaturalPairStep` | EquationSystems/2D/EquationSystem2D.h:60-90 | one vertex pair adds the edge integrals into the row when it is a natural boundary edge, and nothing otherwise |
| `EquationSystem2D.NaturalElement2D` | EquationSystems/2D/EquationSystem2D.h:57-92 | element K's pass goes through all three vertex pairs |
| `EquationSystem2D.AssembleNatural` | EquationSystems/2D/EquationSystem2D.h:54-93 | the element loop leaves the assembled natural vector |
| `EquationSystem2D.NaturalBoundaryVector2D` | EquationSystems/2D/EquationSystem2D.h:48-95 | `constructNaturalBoundaryVector2D` returns the assembled natural vector of length Ng |
| `LegacyElliptic.SystemMatrix` | Elliptic2DABCF.cpp:44 | entry (i, j) of the summed matrix is the sum of the five matrices' entries |
| `LegacyElliptic.SystemLoad` | Elliptic2DABCF.cpp:44 | entry i of the summed load is the sum of the six vectors' entries |
| `LegacyElliptic.ReducedMatrix` | Elliptic2DABCF.cpp:27-44 | after the boundary rows and columns leave each of the five matrices, their sum is square and short by the list's length |
| `LegacyElliptic.ReducedLoad` | Elliptic2DABCF.cpp:27-44 | after the boundary entries leave each of the six vectors, their sum is short by the list's length |
| `LegacyElliptic.RemoveIndexFromMatrices` | Elliptic2DABCF.cpp:30-34 | one pass removes row and column i from each of the five matrices |
| `LegacyElliptic.RemoveIndexFromVectors` | Elliptic2DABCF.cpp:35-40 | one pass removes entry i from each of the six vectors |
| `LegacyElliptic.RemoveBoundaryFromMatrices` | Elliptic2DABCF.cpp:27-34 | the descending walk removes every listed row and column from each matrix |
| `LegacyElliptic.RemoveBoundaryFromVectors` | Elliptic2DABCF.cpp:27-41 | the descending walk removes every listed entry from each vector |
| `LegacyElliptic.RemoveBoundaryStep` | Elliptic2DABCF.cpp:27-41 | the vectors after the passes for B[n] .. B[|B| − 1] hold the originals without those entries |
| `LegacyElliptic.SumMatrices` | Elliptic2DABCF.cpp:44 | the fresh sum matrix holds the summed entries |
| `LegacyElliptic.SumLoads` | Elliptic2DABCF.cpp:44 | the fresh sum vector holds the summed entries |
| `LegacyElliptic.ReduceMatrices` | Elliptic2DABCF.cpp:27-44 | the reduced sum matrix of the five inputs |
| `LegacyElliptic.ReduceLoads` | Elliptic2DABCF.cpp:27-44 | the reduced sum load of the six inputs |
| `LegacyElliptic.ReduceSystem` | Elliptic2DABCF.cpp:27-44 | the reduced system matrix and load |
| `LegacyElliptic.SolveSystem` | Elliptic2DABCF.cpp:9-54 | the LU solution of the reduced system with a zero put back at every boundary index |
| `EllipticSolver2D.SystemRHS` | EquationSystems/2D/Elliptic2DABCF.cpp:49 | entry i of the right-hand side is the sum of the seven vectors' entries |
| `EllipticSolver2D.ReducedRHS` | EquationSystems/2D/Elliptic2DABCF.cpp:24-49 | the load, natural and five essential vectors without their boundary entries, summed |
| `EllipticSolver2D.Operators` | EquationSystems/2D/Elliptic2DABCF.cpp:19-23 | the five assembled matrices, each Ng by Ng |
| `EllipticSolver2D.SystemOperator` | EquationSystems/2D/Elliptic2DABCF.cpp:35-49 | the reduced system matrix is square and short by the boundary count |
| `EllipticSolver2D.SystemLoad2D` | EquationSystems/2D/Elliptic2DABCF.cpp:24-49 | the reduced right-hand side is short by the boundary count |
| `EllipticSolver2D.EllipticSolution` | EquationSystems/2D/Elliptic2DABCF.cpp:49-56 | the solved unknowns with zeros put back form a vector of length Ng |
| `EllipticSolver2D.SolutionSolvesReducedSystem` | EquationSystems/2D/Elliptic2DABCF.cpp:49-56 | the returned coefficients are zero at the boundary, and their free part satisfies L(U x) = r for the factors of the reduced matrix |
| `EllipticSolver2D.RemoveIndicesZeros` | EquationSystems/2D/Elliptic2DABCF.cpp:40-46 | removing boundary entries from a zero vector gives a shorter zero vector |
| `EllipticSolver2D.HomogeneousRHS` | EquationSystems/2D/Elliptic2DABCF.cpp:28-49 | with zero prescribed values the essential vectors drop out and the right-hand side is load plus natural vector |
| `EllipticSolver2D.SystemRHSZeros` | EquationSystems/2D/Elliptic2DABCF.cpp:49 | five zero vectors add nothing to f + g |
| `EllipticSolver2D.SumRHS` | EquationSystems/2D/Elliptic2DABCF.cpp:49 | the fresh sum of the seven vectors |
| `EllipticSolver2D.SolveAndReinsert` | EquationSystems/2D/Elliptic2DABCF.cpp:49-56 | the LU solution with a zero inserted at each boundary index, in ascending order |
| `EllipticSolver2D.EllipticProblem2D.constructor` | EquationSystems/2D/Elliptic2DABCF.cpp:6-9 | the problem holds its space and coefficient integrals; one unknown per node |
| `EllipticSolver2D.EllipticProblem2D.ReducedOperator` | EquationSystems/2D/Elliptic2DABCF.cpp:19-39 | one assembled matrix and its essential vector, both without their boundary rows, columns and entries |
| `EllipticSolver2D.EllipticProblem2D.ReducedLoads` | EquationSystems/2D/Elliptic2DABCF.cpp:24-41 | the load and natural vectors without their boundary entries |
| `EllipticSolver2D.EllipticProblem2D.ReducedOperators` | EquationSystems/2D/Elliptic2DABCF.cpp:19-46 | the summed reduced matrix and the five reduced essential vectors |
| `EllipticSolver2D.EllipticProblem2D.ReducedSystem` | EquationSystems/2D/Elliptic2DABCF.cpp:16-49 | the reduced system matrix and right-hand side of the problem |
| `EllipticSolver2D.EllipticProblem2D.SolveSystem` | EquationSystems/2D/Elliptic2DABCF.cpp:16-73 | `solveSystem` returns the problem's solution: solved free unknowns and zeros at the boundary |
| `EllipticSolver2D.EllipticProblem2D.Update` | EquationSystems/2D/Elliptic2DABCF.cpp:75-88 | unknown 0 of every DOF an element names becomes its coefficient; nothing else changes |
| `StokesFlow2D.StokesMatrix` | StokesFluid.cpp:81-105 | the (2Nu + Np + 1)-square matrix whose every entry is the block layout's entry |
| `StokesFlow2D.StokesMatrixSymmetric` | StokesFluid.cpp:87-105 | the saddle-point matrix is symmetric exactly when its velocity block is |
| `StokesFlow2D.RemoveRowColSkip` | Matrix.cpp:79-90 | entry (i, j) after removing row and column k is the original entry at the skipped indices |
| `StokesFlow2D.RemoveRowColSymmetric` | Matrix.cpp:79-90 | removing a row and the same column keeps a matrix symmetric |
| `StokesFlow2D.RemoveRowsColsSymmetric` | StokesFluid.cpp:48-49 | removing the boundary rows and columns keeps a matrix symmetric |
| `StokesFlow2D.AddMatSymmetric` | StokesFluid.cpp:90-91 | the sum of two symmetric matrices is symmetric |
| `StokesFlow2D.StokesLoad` | StokesFluid.cpp:107-114 | velocity rows f + both essential vectors, pressure rows −(e1 + e2), and 0 in the last row |
| `StokesFlow2D.FillVelocityRow` | StokesFluid.cpp:88-92 | the inner loop writes row i of both velocity blocks from Muu_xx + Muu_yy and nothing else |
| `StokesFlow2D.FillCouplingRow` | StokesFluid.cpp:94-100 | the inner loop writes −Px, −Py in pressure row i and their transposes in pressure column i, and nothing else |
| `StokesFlow2D.StokesUnwritten` | StokesFluid.cpp:82-85 | every cell none of the three loops writes keeps its initial 0 |
| `StokesFlow2D.FillVelocity` | StokesFluid.cpp:87-92 | after the first loop nest the cells it writes hold the target and the rest are 0 |
| `StokesFlow2D.FillCoupling` | StokesFluid.cpp:93-100 | after the second loop nest the cells of both nests hold the target and the rest are 0 |
| `StokesFlow2D.FillMean` | StokesFluid.cpp:101-105 | after the third loop every written cell holds the target and the rest are 0 |
| `StokesFlow2D.VelocityEntries` | StokesFluid.cpp:87-92 | the target's velocity blocks are what the viscous buffers give |
| `StokesFlow2D.CouplingEntries` | StokesFluid.cpp:93-100 | the target's coupling blocks are what the coupling buffers give |
| `StokesFlow2D.MeanEntries` | StokesFluid.cpp:101-105 | the target's mean row and column are what f_l gives |
| `StokesFlow2D.FillStokes` | StokesFluid.cpp:82-105 | the three loop nests over a zero matrix leave exactly the target |
| `StokesFlow2D.AssembleStokesMatrix` | StokesFluid.cpp:81-105 | the fresh matrix is the saddle-point matrix of Muu_xx + Muu_yy, Mpu_0x, Mpu_0y and f_l |
| `StokesFlow2D.FillVelocityLoads` | StokesFluid.cpp:108-112 | the first loop writes the two velocity parts of b and nothing else |
| `StokesFlow2D.FillPressureLoads` | StokesFluid.cpp:113-114 | the second loop writes the pressure part of b and nothing else |
| `StokesFlow2D.AssembleStokesLoad` | StokesFluid.cpp:107-114 | the fresh vector b is the Stokes load of the reduced vectors |
| `StokesFlow2D.Reinserted` | StokesFluid.cpp:119-134 | the three insertion walks give a vector of length 2Ng_u + Ng_p + 1 |
| `StokesFlow2D.ReinsertedBlocks` | StokesFluid.cpp:119-134 | each walk's zeros land inside its own block: the result is the three blocks with zeros inserted, then the multiplier |
| `StokesFlow2D.ReinsertedBlock` | StokesFluid.cpp:119-134 | a block with zeros inserted holds 0 at each listed index and gives back the block when they are removed |
| `StokesFlow2D.ReinsertedConstrained` | StokesFluid.cpp:119-134 | the returned vector is 0 at every constrained DOF of each block, and dropping those zeros gives back each block's solved unknowns |
| `StokesFlow2D.ReinsertedFirstBlock` | StokesFluid.cpp:120-124 | the u1 block is 0 at the velocity boundary and holds the solved u1 unknowns elsewhere |
| `StokesFlow2D.ReinsertedSecondBlock` | StokesFluid.cpp:125-129 | the u2 block is 0 at the velocity boundary and holds the solved u2 unknowns elsewhere |
| `StokesFlow2D.ReinsertedThirdBlock` | StokesFluid.cpp:130-134 | the p block is 0 at the pressure boundary and holds the solved p unknowns elsewhere |
| `StokesFlow2D.ListsCounts` | StokesFluid.cpp:63-64 | a sorted boundary list is no longer than its space, so Nu_u and Nu_p are not negative |
| `StokesFlow2D.AssembledOf` | StokesFluid.cpp:30-36 | the assembled pieces fit the velocity and pressure spaces |
| `StokesFlow2D.SaddleOperator` | StokesFluid.cpp:47-105 | the reduced saddle-point matrix is square and short by twice the velocity and once the pressure boundary count |
| `StokesFlow2D.SaddleRHS` | StokesFluid.cpp:38-114 | the reduced right-hand side has the same length |
| `StokesFlow2D.SaddleSolution` | StokesFluid.cpp:117-139 | the returned coefficient vector has length 2Ng_u + Ng_p + 1, as the debug check states |
| `StokesFlow2D.Compressed` | StokesFluid.cpp:47-64 | each block without its constrained entries, then the multiplier, is shorter by the boundary counts |
| `StokesFlow2D.CompressReinserted` | StokesFluid.cpp:47-134 | removing the constrained entries from the re-inserted vector gives back the solved vector |
| `StokesFlow2D.CompressBlocks` | StokesFluid.cpp:47-134 | the same for a vector given block by block |
| `StokesFlow2D.ReinsertedMultiplier` | StokesFluid.cpp:119-134 | the multiplier stays the last entry |
| `StokesFlow2D.SaddleSolutionSolves` | StokesFluid.cpp:117-139 | the returned vector is 0 at every constrained DOF and its free part satisfies L(U x) = r for the factors of the reduced matrix |
| `StokesFlow2D.ViscousSymmetric` | StokesFluid.cpp:30-31 | a viscous matrix with a symmetric local product is symmetric |
| `StokesFlow2D.SaddleOperatorSymmetric` | StokesFluid.cpp:47-105 | with symmetric viscous matrices the reduced saddle-point matrix is symmetric |
| `StokesFlow2D.ViscousSumSymmetric` | StokesFluid.cpp:48-49 | the sum of the two reduced viscous matrices is symmetric when both are |
| `StokesFlow2D.HomogeneousSaddleRHS` | StokesFluid.cpp:38-114 | with zero prescribed velocities the right-hand side is the two reduced body-force loads, then zeros |
| `StokesFlow2D.HomogeneousEssentials` | StokesFluid.cpp:38-60 | with zero prescribed velocities every reduced essential vector is zero |
| `StokesFlow2D.StokesLoadZeros` | StokesFluid.cpp:107-114 | with zero essential vectors the load is f1, f2, then zeros |
| `StokesFlow2D.SolveAndReinsertBlocks` | StokesFluid.cpp:117-134 | the LU solution with zeros re-inserted by the three walks |
| `StokesFlow2D.WithUnknownReadBack` | StokesFluid.cpp:147-153 | after writing unknown v the values read back are the written ones; other unknowns, coordinates and tags stay |
| `StokesFlow2D.SolutionWrittenReadsBack` | StokesFluid.cpp:142-154 | the nodes keep their sites, and reading u1, u2, p back followed by the multiplier gives the solution vector |
| `StokesFlow2D.ReducedViscous` | StokesFluid.cpp:30-58 | a viscous matrix and its two essential vectors, made and then reduced |
| `StokesFlow2D.ReduceTriple` | StokesFluid.cpp:48-59 | the boundary rows and columns leave the matrix and the boundary entries leave both vectors |
| `StokesFlow2D.ReducedCoupling` | StokesFluid.cpp:32-60 | a coupling matrix and its essential vector, made and then reduced on both lists |
| `StokesFlow2D.ReducePair` | StokesFluid.cpp:50-60 | the pressure rows and velocity columns leave the matrix and the pressure entries leave the vector |
| `StokesFlow2D.ReducedLoad` | StokesFluid.cpp:34-54 | a load vector, made and then reduced |
| `StokesFlow2D.VelocityPieces` | StokesFluid.cpp:30-59 | the reduced viscous matrices, their essential vectors and the reduced body-force loads |
| `StokesFlow2D.Couplings` | StokesFluid.cpp:32-60 | the two reduced couplings and their essential vectors |
| `StokesFlow2D.PressurePieces` | StokesFluid.cpp:32-60 | the couplings and the reduced mean weights |
| `StokesFlow2D.AssembleSaddle` | StokesFluid.cpp:62-114 | the saddle-point system of the reduced pieces |
| `StokesFlow2D.CompleteSaddle` | StokesFluid.cpp:27-114 | the problem's reduced saddle-point matrix and right-hand side |
| `StokesFlow2D.SolveSaddle` | StokesFluid.cpp:117-134 | the returned vector is the saddle solution |
| `StokesFlow2D.SaddleSystem` | StokesFluid.cpp:27-114 | the reduced saddle-point system of the two spaces |
| `StokesFlow2D.SolveSaddleSystem` | StokesFluid.cpp:25-140 | `solveSystem` returns the saddle solution |
| `StokesFlow2D.WriteVelocity` | StokesFluid.cpp:147-151 | u1 of velocity node i becomes u[i] and u2 becomes u[Ng_u + i]; nothing else changes |
| `StokesFlow2D.SetVelocity` | StokesFluid.cpp:149-150 | one pass writes both unknowns of node i and nothing else |
| `StokesFlow2D.WritePressure` | StokesFluid.cpp:152-153 | p of pressure node i becomes u[2Ng_u + i]; nothing else changes |
| `StokesFlow2D.WriteSolution` | StokesFluid.cpp:142-154 | both write loops together: the velocity and pressure unknowns become their blocks of u |
| `StokesFlow2D.StokesProblem2D.constructor` | StokesFluid.cpp:9-18 | the problem holds its two spaces and data; three equations |
| `StokesFlow2D.StokesProblem2D.Pieces` | StokesFluid.cpp:30-36 | the problem's assembled pieces fit its spaces |
| `StokesFlow2D.StokesProblem2D.Operator` | StokesFluid.cpp:47-105 | the problem's reduced saddle-point matrix |
| `StokesFlow2D.StokesProblem2D.Solution` | StokesFluid.cpp:117-139 | the problem's solution has length 2Ng_u + Ng_p + 1 |
| `StokesFlow2D.StokesProblem2D.SolveSystem` | StokesFluid.cpp:25-140 | `solveSystem` returns the problem's solution |
| `StokesFlow2D.StokesProblem2D.Update` | StokesFluid.cpp:142-154 | u1, u2 of every velocity node and p of every pressure node become their blocks of the solution; the multiplier is dropped |
| `FiniteElements2D.LocalLayout` | Meshing/2D/FEM2D.h:30-31 | the interior count is (p − 1)(p − 2)/2 with exact division, and a table row is (p + 2)(p + 1)/2 wide |
| `FiniteElements2D.CountLayout` | Meshing/2D/FEM2D.h:43-147 | vertex DOFs come first, then edge DOFs, then interior DOFs, ending at Ng |
| `FiniteElements2D.NumDofsFormula` | Meshing/2D/FEM2D.h:30-31 | the DOF count of the layout is the initialiser numNodes + (p − 1) numEdges + (p − 1)(p − 2) size / 2, and the row width is (p + 2)(p + 1)/2 |
| `FiniteElements2D.RowOffsetClosed` | Meshing/2D/FEM2D.h:131-146 | the local number of the first interior node of sub-grid row i, in closed form |
| `FiniteElements2D.RowOffsetOrder` | Meshing/2D/FEM2D.h:131-146 | the interior sub-grid rows are numbered one after the other |
| `FiniteElements2D.InteriorPosFromOf` | Meshing/2D/FEM2D.h:131-146 | counting from any earlier row, the local numbering of the interior sub-grid is undone by its row and column |
| `FiniteElements2D.InteriorPosOf` | Meshing/2D/FEM2D.h:131-146 | interior node (i, j) gets local number RowOffset(i) + j, below the interior count, and that number gives back (i, j) |
| `FiniteElements2D.SlotEdge` | Meshing/2D/FEM2D.h:101-106 | the edge-id matrix names a 0-based edge of the mesh for every vertex pair of an element |
| `FiniteElements2D.SlotIndex` | Meshing/2D/FEM2D.h:109-110 | every row entry between the vertices and the interior sits in exactly one of the three edge slots, at a place below p − 1 |
| `FiniteElements2D.EdgeDofRange` | Meshing/2D/FEM2D.h:83 | edge DOFs come after the vertices and before the interior DOFs |
| `FiniteElements2D.InteriorDofRange` | Meshing/2D/FEM2D.h:117-144 | interior DOFs come after the edge DOFs and below Ng |
| `FiniteElements2D.InteriorBlock` | Meshing/2D/FEM2D.h:117-147 | the interior DOFs of one element are consecutive and those of the next element follow them |
| `FiniteElements2D.RowBlock` | Meshing/2D/FEM2D.h:131-146 | the nodes of one interior sub-grid row are consecutive and the next row follows them |
| `FiniteElements2D.ConnEntryRange` | Meshing/2D/FEM2D.h:53-146 | every entry of the connectivity table names one of the Ng DOFs |
| `FiniteElements2D.ConnEntrySlot` | Meshing/2D/FEM2D.h:94-114 | the DOFs in edge slot s of element K are those of a mesh edge whose end points are the slot's two vertices |
| `FiniteElements2D.ConnEntryInteriorOwned` | Meshing/2D/FEM2D.h:117-147 | an interior DOF appears in one table row at one place only |
| `FiniteElements2D.ConnEntryVertices` | Meshing/2D/FEM2D.h:53-55 | the first three entries of a row are the mesh element's vertices; no later entry names a vertex |
| `FiniteElements2D.EdgeDofIndex` | Meshing/2D/FEM2D.h:83 | every number between the vertices and the interior DOFs is a DOF of exactly one edge at one place |
| `FiniteElements2D.InteriorDofIndex` | Meshing/2D/FEM2D.h:117-144 | every number from the interior start to Ng is an interior DOF of exactly one element at one local place |
| `FiniteElements2D.DofNodeOfEdge` | Meshing/2D/FEM2D.h:58-93 | the node of DOF i of edge e is the edge node with parameter (i + 1)/p and the edge's tag |
| `FiniteElements2D.DofNodeOfInterior` | Meshing/2D/FEM2D.h:117-147 | the node of interior DOF (i, j) of element K is the reference point ((i + 1)/p, (j + 1)/p) carried onto K |
| `FiniteElements2D.EdgeNodesEquallySpaced` | Meshing/2D/FEM2D.h:79-86 | the p − 1 edge nodes cut the edge into p equal parts and lie strictly between its end points |
| `FiniteElements2D.InteriorNodeInside` | Meshing/2D/FEM2D.h:124-141 | interior reference points lie strictly inside the reference triangle, and on a non-degenerate element the inverse map brings the node back to its reference point |
| `FiniteElements2D.DofTags` | Meshing/2D/FEM2D.h:43-147 | each DOF node carries its DOF's tag; interior DOFs are never constrained |
| `FiniteElements2D.DofTagOfEdge` | Meshing/2D/FEM2D.h:72-88 | every DOF of an edge carries the edge's tag |
| `FiniteElements2D.EdgeDofTag` | Meshing/2D/FEM2D.h:67-88 | an edge DOF is constrained only on a boundary edge (incidence count 1), and then carries the tag of one of the edge's end points |
| `FiniteElements2D.MidpointDofs` | Meshing/2D/FEM2D.h:94-114 | for degree 2 the DOF in edge slot s of element K sits at the image of local shape node 3 + s, so the table order matches the shape-function order |
| `FiniteElements2D.MidpointImage` | Meshing/2D/FEM2D.h:124-141 | the reference midpoint of a side maps to the midpoint of the element's side |
| `FiniteElements2D.MidpointOfEnds` | Meshing/2D/FEM2D.h:79-86 | the single DOF of a degree-2 edge is the midpoint of its end points, whichever way round they are listed |
| `FiniteElementSpace2D.PlacedExtend` | Meshing/2D/FEM2D.h:43-147 | two runs of correctly placed DOF nodes that meet make one run, when the later writes left the first alone |
| `FiniteElementSpace2D.PlaceVertexDofs` | Meshing/2D/FEM2D.h:43-52 | the vertex loop makes DOF n < numNodes the copy of mesh node n, leaves the later DOFs alone, and records exactly the constrained vertices in increasing order |
| `FiniteElementSpace2D.CopyVertexColumns` | Meshing/2D/FEM2D.h:53-55 | the first three columns of every table row become the element's vertices; the other columns are untouched |
| `FiniteElementSpace2D.EdgeBlock` | Meshing/2D/FEM2D.h:83 | the p − 1 DOFs of an edge are consecutive, the next edge's follow, and all lie before the interior DOFs |
| `FiniteElementSpace2D.EdgeConstrainedBelow` | Meshing/2D/FEM2D.h:87-91 | collecting one edge's constrained DOFs continues the list of all constrained DOFs below that edge |
| `FiniteElementSpace2D.EdgeConstrainedStep` | Meshing/2D/FEM2D.h:58-93 | the constrained DOFs below the next edge are those below edge e followed by e's own |
| `FiniteElementSpace2D.PlaceEdge` | Meshing/2D/FEM2D.h:59-92 | one turn of the edge loop writes exactly the DOF nodes of edge e and appends its constrained DOFs in order |
| `FiniteElementSpace2D.PlaceEdgeNode` | Meshing/2D/FEM2D.h:80-92 | one DOF of the edge loop: position (1 − t) A1 + t A2, the edge's tag on a boundary edge (the first end's tag, or the second's when the first is a corner), recorded when constrained |
| `FiniteElementSpace2D.PlaceEdgeDofs` | Meshing/2D/FEM2D.h:58-93 | after the edge loop every edge DOF holds its node, nothing else changed, and the recorded list is every constrained vertex and edge DOF in increasing order |
| `FiniteElementSpace2D.EdgeNodesAreDofNodes` | Meshing/2D/FEM2D.h:79-92 | the nodes the edge loop writes for edge e are the DOF nodes of the edge's numbers |
| `FiniteElementSpace2D.FillSlot` | Meshing/2D/FEM2D.h:109-110 | the innermost loop puts the DOFs of mesh edge E, in order, into slot e of row K and changes no other entry |
| `FiniteElementSpace2D.VisitPair` | Meshing/2D/FEM2D.h:101-112 | vertices i, j of element K form an edge, so the next slot gets that edge's DOFs and the slot counter advances by one |
| `FiniteElementSpace2D.FillEdgeSlots` | Meshing/2D/FEM2D.h:96-113 | the pair loops over (1, 0), (2, 1), (2, 0) fill entries 3 .. 3p − 1 of row K with the edge DOFs of its three sides and leave every other entry alone |
| `FiniteElementSpace2D.FillAllEdgeSlots` | Meshing/2D/FEM2D.h:94-114 | the slot pass over all elements fills every row's edge entries and leaves the rest |
| `FiniteElementSpace2D.PlaceInteriorNode` | Meshing/2D/FEM2D.h:136-141 | one interior node is written at B t + A1 over its default node; no other node changes |
| `FiniteElementSpace2D.EnterInteriorDof` | Meshing/2D/FEM2D.h:143 | one table entry of row K gets the next interior DOF number; no other entry changes |
| `FiniteElementSpace2D.PlaceInteriorRow` | Meshing/2D/FEM2D.h:133-146 | the inner interior loop writes the p − 2 − i nodes of sub-grid row i and their table entries, advancing both counters by that many |
| `FiniteElementSpace2D.InteriorRowPlaced` | Meshing/2D/FEM2D.h:133-146 | the nodes written for a sub-grid row are the DOF nodes of their numbers |
| `FiniteElementSpace2D.PlaceElementInterior` | Meshing/2D/FEM2D.h:120-146 | for element K the interior loop writes its (p − 1)(p − 2)/2 interior nodes and fills entries 3p on of its row |
| `FiniteElementSpace2D.PlaceInteriorDofs` | Meshing/2D/FEM2D.h:117-147 | after the interior loop every interior DOF holds its node, entries 3p on of every row hold the element's interior DOFs, and nothing before the interior changed |
| `ConstrainedDofs2D.ConstrainedBelowBounds` | Meshing/2D/FEM2D.h:50-51 | every recorded boundary index is a DOF below the current point of the walk |
| `ConstrainedDofs2D.ConstrainedBelowIncreasing` | Meshing/2D/FEM2D.h:43-93 | vertices and edge DOFs are recorded in increasing order without repeats |
| `ConstrainedDofs2D.ConstrainedBelowMembers` | Meshing/2D/FEM2D.h:50-51 | a DOF below n is in the list exactly when its tag is constrained |
| `ConstrainedDofs2D.ConstrainedBelowInterior` | Meshing/2D/FEM2D.h:117-147 | interior DOFs are never recorded: the list is complete at the first interior DOF |
| `ConstrainedDofs2D.SettledSorted` | Meshing/2D/FEM2D.h:150-162 | once every entry but the first is settled the list is sorted |
| `ConstrainedDofs2D.SortedOrdered` | Meshing/2D/FEM2D.h:154-155 | a list in which no neighbours are out of order is ordered throughout |
| `ConstrainedDofs2D.IncreasingIsSorted` | Meshing/2D/FEM2D.h:154-155 | a strictly increasing list passes the pass's test |
| `ConstrainedDofs2D.PassDone` | Meshing/2D/FEM2D.h:153-161 | at the end of a pass the list is a rearrangement, one more tail entry is settled, and the flag is true exactly when the list was sorted |
| `ConstrainedDofs2D.BubblePass` | Meshing/2D/FEM2D.h:153-161 | one pass swaps neighbours out of order; the result is a rearrangement, settles one more entry, and reports sorted exactly when nothing needed a swap |
| `ConstrainedDofs2D.SortIndices` | Meshing/2D/FEM2D.h:149-162 | the `while (!sorted)` loop returns a sorted rearrangement of the list, and a sorted list unchanged |
| `ConstrainedDofs2D.SortKeepsConstrained` | Meshing/2D/FEM2D.h:149-162 | the list the constructor builds is sorted already, so the sort keeps it as it is |
| `FiniteElementMethod2D.BuildSpace2D` | Meshing/2D/FEM2D.h:40-162 | the constructor's body fills every DOF node, every table entry and the sorted boundary list as the layout functions say |
| `FiniteElementMethod2D.DofNodeUnknowns` | Meshing/2D/FEM2D.h:40 | every DOF node starts with N unknowns, all zero |
| `FiniteElementMethod2D.Interpolate` | Meshing/2D/FEM2D.h:177-178 | unknown 0 of every node becomes the initial condition at the node; nothing else changes |
| `FiniteElementMethod2D.ShapeValues2D` | Functions/LagrangeShapeFunctions2D.h:47-95 | one shape value per local DOF of a degree-1 or degree-2 element |
| `FiniteElementMethod2D.RowWidthIsShapeCount` | Meshing/2D/FEM2D.h:266 | for degrees 1 and 2 a table row has one entry per shape function, so the evaluation loop reads every shape function once |
| `FiniteElementMethod2D.CombinationOfConstant` | Meshing/2D/FEM2D.h:265-271 | equal nodal values reproduce the constant on the element and give zero first derivatives |
| `FiniteElementMethod2D.ShapeValuesSum` | Functions/LagrangeShapeFunctions2D.h:47-95 | the shape values add up to one and their first derivatives to zero |
| `FiniteElementMethod2D.DotOfConstant` | Meshing/2D/FEM2D.h:265-270 | a running sum whose nodal factors all equal c is c times the sum of the shape values so far |
| `FiniteElementMethod2D.CombinationAtNode` | Meshing/2D/FEM2D.h:265-271 | at the image of reference node k the combination of the shape functions is the k-th nodal value |
| `FiniteElementMethod2D.LocalNodePosition` | Meshing/2D/FEM2D.h:43-147 | local DOF k of element K sits at the image of reference node k of the shape functions, for degrees 1 and 2 |
| `FiniteElementMethod2D.ReferencePoint` | Meshing/2D/FEM2D.h:369-384 | inverting B in place and applying it to P − A1 gives the reference point of P |
| `FiniteElementMethod2D.ShapeAt2D` | Functions/LagrangeShapeFunctions2D.h:78-94 | one shape-function call succeeds exactly for degree 1 or 2 and derivative order at most one, and then returns shape value j; otherwise it reports which is unsupported |
| `FiniteElementMethod2D.ElementSum2D` | Meshing/2D/FEM2D.h:265-271 | the evaluation loop returns the sum of nodal value times shape value over the element, or the unsupported-degree or unsupported-derivative error |
| `FiniteElementMethod2D.FEM2D.constructor` | Meshing/2D/FEM2D.h:27-163 | Ng is the initialiser's count, a table row is (p + 2)(p + 1)/2 wide, and every DOF node is placed as the layout says with zero unknowns |
| `FiniteElementMethod2D.FEM2D.WithInitialCondition` | Meshing/2D/FEM2D.h:171-179 | as the plain constructor, with unknown 0 of every node the initial condition at the node |
| `FiniteElementMethod2D.FEM2D.BoundaryIndicesAreConstrained` | Meshing/2D/FEM2D.h:50-51 | the boundary list holds exactly the DOFs whose tag is constrained, in increasing order |
| `FiniteElementMethod2D.FEM2D.Element` | Meshing/2D/FEM2D.h:199-206 | `fem[K]` is row K of the DOF table |
| `FiniteElementMethod2D.FEM2D.NodeAt` | Meshing/2D/FEM2D.h:213-222 | `fem(K, j)` is the node of the DOF the table names, standing where the constructor put it |
| `FiniteElementMethod2D.FEM2D.SetVariable` | Meshing/2D/FEM2D.h:213-222 | a write through `fem(K, j)[v]` changes unknown v of that DOF's node only |
| `FiniteElementMethod2D.FEM2D.SetNodeVariable` | Meshing/2D/FEM2D.h:177-178 | a write through the node array changes unknown v of node n only |
| `FiniteElementMethod2D.FEM2D.IsInTriangle` | Meshing/2D/FEM2D.h:361-390 | the test answers whether the point's reference point lies in the reference triangle up to the tolerance |
| `FiniteElementMethod2D.FEM2D.InTriangleOfMap` | Meshing/2D/FEM2D.h:361-390 | every point of the reference triangle carried onto the element passes the test |
| `FiniteElementMethod2D.FEM2D.ElementValues` | Meshing/2D/FEM2D.h:266-269 | one nodal value per local DOF of the element |
| `FiniteElementMethod2D.FEM2D.EvaluateIn` | Meshing/2D/FEM2D.h:253-272 | the element's sum of nodal value times shape function, or the unsupported-degree or unsupported-derivative error |
| `FiniteElementMethod2D.FEM2D.FindElement` | Meshing/2D/FEM2D.h:233-240 | the first element containing the point, or −1 exactly when no element contains it |
| `FiniteElementMethod2D.FEM2D.Evaluate` | Meshing/2D/FEM2D.h:230-245 | a value exactly when some element contains the point and the degree and derivative are supported; then it is the value in the first such element; outside-the-domain exactly when no element contains it |
| `FiniteElementMethod2D.FEM2D.EvaluateAtLocalNode` | Meshing/2D/FEM2D.h:253-272 | at the node of a local DOF the finite-element function equals that DOF's value |
| `FiniteElementMethod2D.FEM2D.EvaluateConstant` | Meshing/2D/FEM2D.h:253-272 | constant nodal values on an element give that constant and zero first derivatives there |
| `RectangularMesh.GridDecode` | UniformRectangularMesh2D.cpp:25-26 | the row and column of node i (nx + 1) + j are i and j |
| `RectangularMesh.GridEncode` | UniformRectangularMesh2D.cpp:21-27 | every node index is i (nx + 1) + j for its own row i and column j ≤ nx |
| `RectangularMesh.NumEdgesSides` | UniformRectangularMesh2D.cpp:7 | the initialiser 5 + 4 (nx + ny − 2) + 3 (nx − 1)(ny − 1) is 3 nx ny + nx + ny, the number of horizontal, vertical and diagonal sides |
| `RectangularMesh.RowBound` | UniformRectangularMesh2D.cpp:6 | a node index lies on one of the ny + 1 rows |
| `RectangularMesh.Neighbours` | UniformRectangularMesh2D.cpp:36-39 | the right, upper and upper-right neighbours the corner formulas use are node indices when they exist |
| `RectangularMesh.GridNodeAt` | UniformRectangularMesh2D.cpp:25-26 | node (i, j) is at (xMin + j dx, yMin + i dy) |
| `RectangularMesh.PlaceNodes` | UniformRectangularMesh2D.cpp:20-27 | the node loop gives (nx + 1)(ny + 1) nodes, each at its grid point |
| `RectangularMesh.PlaceRow` | UniformRectangularMesh2D.cpp:22-27 | one pass of the outer node loop places the nodes of row i and leaves the later ones at their defaults |
| `RectangularMesh.CornerOffsets` | UniformRectangularMesh2D.cpp:36-39 | the other three corners of a cell are one, nx + 1 and nx + 2 after the bottom-left one |
| `RectangularMesh.RowWrap` | UniformRectangularMesh2D.cpp:21-27 | the node after the last of a row starts the next row |
| `RectangularMesh.CellTriangles` | UniformRectangularMesh2D.cpp:36-48 | cell (i, j) becomes elements (botLeft, botRight, topRight) and (botLeft, topLeft, topRight), numbered 2 (i nx + j) and one more |
| `RectangularMesh.CellGeometry` | UniformRectangularMesh2D.cpp:36-48 | the two elements of a cell are the right triangles on either side of its diagonal, with the cell's corner coordinates |
| `RectangularMesh.GridNodeRight` | UniformRectangularMesh2D.cpp:25 | one step along a row moves a node dx to the right |
| `RectangularMesh.GridNodeUp` | UniformRectangularMesh2D.cpp:26 | one step up a column moves a node dy up |
| `RectangularMesh.TriangleCell` | UniformRectangularMesh2D.cpp:30-49 | element K lies in cell K / 2, and its vertices are the offsets of that cell's bottom-left node |
| `RectangularMesh.CellBounds` | UniformRectangularMesh2D.cpp:32-33 | a cell number below nx ny has a row below ny and a column below nx |
| `RectangularMesh.TriangleInRange` | UniformRectangularMesh2D.cpp:36-47 | every element has three increasing vertices, all of them node indices |
| `RectangularMesh.BuildConnectivity` | UniformRectangularMesh2D.cpp:29-49 | the connectivity loop gives 2 nx ny rows, row K holding the vertices of element K |
| `RectangularMesh.ElementRows` | UniformRectangularMesh2D.cpp:30-48 | K advances by 2 nx per cell row and ends at 2 nx ny |
| `RectangularMesh.ConnectRow` | UniformRectangularMesh2D.cpp:33-48 | one pass of the outer loop writes the two elements of every cell in row i and advances K by 2 nx |
| `RectangularMesh.CountElement` | UniformRectangularMesh2D.cpp:56-64 | the nine increments for one element raise each entry by the number of that element's vertex pairs landing on it |
| `RectangularMesh.BuildEdgeTypes` | UniformRectangularMesh2D.cpp:51-64 | after zeroing and counting, entry (v, w) counts the ordered vertex pairs (v, w) over all elements |
| `RectangularMesh.ZeroTable` | UniformRectangularMesh2D.cpp:52-54 | the zeroing loops set every entry to 0 |
| `RectangularMesh.PairsOfTriangle` | UniformRectangularMesh2D.cpp:55-64 | an element contributes 1 to (v, w) when both are its vertices and 0 otherwise |
| `RectangularMesh.EdgeTypeSymmetric` | UniformRectangularMesh2D.cpp:55-64 | the edge-type matrix is symmetric |
| `RectangularMesh.EdgeTypeDiagonal` | UniformRectangularMesh2D.cpp:55-64 | a diagonal entry counts the elements around the vertex |
| `RectangularMesh.EdgeTypeFromElement` | UniformRectangularMesh2D.cpp:55-64 | an element holding both v and w makes entry (v, w) positive |
| `RectangularMesh.ElementFromEdgeType` | UniformRectangularMesh2D.cpp:55-64 | a positive entry (v, w) comes from an element holding both |
| `RectangularMesh.SharedElementAdjacent` | UniformRectangularMesh2D.cpp:36-47 | two vertices of one element are the ends of a horizontal, vertical or diagonal grid side |
| `RectangularMesh.CellElementInRange` | UniformRectangularMesh2D.cpp:30-48 | both elements of a cell are numbered below 2 nx ny |
| `RectangularMesh.LowerElement` | UniformRectangularMesh2D.cpp:42-44 | the lower element of a cell has vertices bl, bl + 1, bl + nx + 2 |
| `RectangularMesh.UpperElement` | UniformRectangularMesh2D.cpp:45-47 | the upper element of a cell has vertices bl, bl + nx + 1, bl + nx + 2 |
| `RectangularMesh.HorizontalSideElement` | UniformRectangularMesh2D.cpp:36-47 | every horizontal grid side lies on some element |
| `RectangularMesh.VerticalSideElement` | UniformRectangularMesh2D.cpp:36-47 | every vertical grid side lies on some element |
| `RectangularMesh.DiagonalSideElement` | UniformRectangularMesh2D.cpp:36-47 | every cell diagonal lies on some element |
| `RectangularMesh.AdjacentSharedElement` | UniformRectangularMesh2D.cpp:36-47 | every grid side lies on an element |
| `RectangularMesh.EdgeTypePositive` | UniformRectangularMesh2D.cpp:51-64 | for v < w the entry is positive exactly when v and w are the ends of a grid side |
| `RectangularMesh.EdgeTypeCounts` | UniformRectangularMesh2D.cpp:55-64 | when the elements holding v and w are listed (at most two), the entry after the first K elements counts the listed ones below K |
| `RectangularMesh.TriangleCorner` | UniformRectangularMesh2D.cpp:36-47 | the first vertex of element K is the bottom-left corner of cell K / 2, the second one step right or up |
| `RectangularMesh.TriangleInjective` | UniformRectangularMesh2D.cpp:30-49 | distinct elements have distinct vertex lists |
| `RectangularMesh.HorizontalOwner` | UniformRectangularMesh2D.cpp:36-47 | the elements holding a horizontal side are the lower one of the cell above and the upper one of the cell below |
| `RectangularMesh.VerticalOwner` | UniformRectangularMesh2D.cpp:36-47 | the elements holding a vertical side are the upper one of the cell to the right and the lower one of the cell to the left |
| `RectangularMesh.CellOf` | UniformRectangularMesh2D.cpp:30-48 | element k lies in cell row (k / 2) / nx and column (k / 2) % nx, inside the grid |
| `RectangularMesh.SameGridIndex` | UniformRectangularMesh2D.cpp:25-26 | two row-column pairs with the same node index are equal |
| `RectangularMesh.DiagonalOwner` | UniformRectangularMesh2D.cpp:36-47 | the elements holding a diagonal are the two elements of its cell |
| `RectangularMesh.HorizontalCount` | UniformRectangularMesh2D.cpp:55-64 | a horizontal side has edge type 1 on the bottom and top rows and 2 elsewhere |
| `RectangularMesh.VerticalCount` | UniformRectangularMesh2D.cpp:55-64 | a vertical side has edge type 1 on the left and right columns and 2 elsewhere |
| `RectangularMesh.DiagonalCount` | UniformRectangularMesh2D.cpp:55-64 | a diagonal has edge type 2 |
| `RectangularMesh.EdgeTypeValuesOrdered` | UniformRectangularMesh2D.cpp:51-64 | for v < w the entry is at most 2, 1 exactly on outer sides and 2 exactly on inner sides |
| `RectangularMesh.EdgeTypeValues` | UniformRectangularMesh2D.cpp:51-64 | off the diagonal the entry is 0 off the grid sides, 1 exactly on the outer boundary and 2 exactly on the interior sides |
| `RectangularMesh.EdgeTypes` | UniformRectangularMesh2D.cpp:51-64 | the edge-type table is square with one row per node |
| `RectangularMesh.RowScannedStep` | UniformRectangularMesh2D.cpp:69-76 | one step of the inner scan appends [i, j] exactly when the entry is positive |
| `RectangularMesh.RowEdgesScanned` | UniformRectangularMesh2D.cpp:69-76 | the scan of one row lists its edges by increasing far end, none missed |
| `RectangularMesh.ScannedStep` | UniformRectangularMesh2D.cpp:68-77 | the scan of row i appended to the scan of the rows below gives the scan below i + 1 |
| `RectangularMesh.EdgesBeforeScanned` | UniformRectangularMesh2D.cpp:68-77 | the list after the rows below i is the ordered scan of those rows |
| `RectangularMesh.EdgeListExact` | UniformRectangularMesh2D.cpp:66-77 | the edge array holds every pair i < j with a positive entry exactly once, in lexicographic order, and nothing else |
| `RectangularMesh.RowEdgesCount` | UniformRectangularMesh2D.cpp:69-76 | the scan of a node's row finds the right, upper and diagonal sides starting at it |
| `RectangularMesh.EdgesBeforeStep` | UniformRectangularMesh2D.cpp:68-77 | finishing row v adds the sides starting at v |
| `RectangularMesh.GridIndexInRange` | UniformRectangularMesh2D.cpp:21-27 | every grid position is a node index |
| `RectangularMesh.EdgesBeforeCount` | UniformRectangularMesh2D.cpp:66-77 | the scan over the rows below i finds as many edges as the sides starting below i |
| `RectangularMesh.NextNode` | UniformRectangularMesh2D.cpp:21-27 | the next node index is the next column, or the first column of the next row |
| `RectangularMesh.SidesStep` | UniformRectangularMesh2D.cpp:7 | passing a node adds the one to three sides it starts |
| `RectangularMesh.DegreeSumClosedForm` | UniformRectangularMesh2D.cpp:7 | the sides starting below node v are counted row by row |
| `RectangularMesh.EdgeListLength` | UniformRectangularMesh2D.cpp:7-77 | the scan writes exactly numEdges pairs, so the initialiser's count and the edge array agree |
| `RectangularMesh.RowEdgesGrow` | UniformRectangularMesh2D.cpp:69-76 | a longer row scan finds at least as many edges |
| `RectangularMesh.EdgesBeforeGrow` | UniformRectangularMesh2D.cpp:68-77 | a scan over more rows finds at least as many edges |
| `RectangularMesh.ScanRow` | UniformRectangularMesh2D.cpp:69-76 | the inner loop keeps the earlier rows of the array and appends the edges of row i, advancing E by their number |
| `RectangularMesh.BuildEdgeArray` | UniformRectangularMesh2D.cpp:66-77 | the edge-array loops write the edge list into the first rows of the array |
| `RectangularMesh.EdgeIdLast` | UniformRectangularMesh2D.cpp:83-87 | a positive edge-matrix entry names the last edge joining v and w; 0 means none does |
| `RectangularMesh.EdgeIdSymmetric` | UniformRectangularMesh2D.cpp:85-86 | the edge matrix is symmetric |
| `RectangularMesh.EdgeIdUnique` | UniformRectangularMesh2D.cpp:83-87 | in an ordered edge list the entry for v, w is one more than the position of the edge joining them |
| `RectangularMesh.BuildEdgeMatrix` | UniformRectangularMesh2D.cpp:79-87 | after zeroing, entry (v, w) is one more than the last edge joining v and w, or 0 |
| `RectangularMesh.EdgeIdOfPair` | UniformRectangularMesh2D.cpp:66-87 | distinct v, w get a positive edge id exactly when the edge-type entry of the ordered pair is positive, and the id names an edge joining them |
| `RectangularMesh.EdgeOfPositive` | UniformRectangularMesh2D.cpp:66-87 | a positive edge-type entry gives a positive edge id |
| `RectangularMesh.EdgeIdDiagonal` | UniformRectangularMesh2D.cpp:66-87 | the diagonal of the edge matrix is 0 |
| `RectangularMesh.EdgeIdGrid` | UniformRectangularMesh2D.cpp:51-87 | distinct nodes have a positive edge id exactly when they are the ends of a grid side, and the id names that side |
| `RectangularMesh.ElementEdgeGrid` | UniformRectangularMesh2D.cpp:51-87 | two vertices of one element have a positive edge type and an edge id naming the edge between them |
| `RectangularMesh.Rows` | UniformRectangularMesh2D.cpp:8-11 | the contents of a two-dimensional array as a table of the same shape |
| `RectangularMesh.UniformRectangularMesh2D.constructor` | UniformRectangularMesh2D.cpp:4-88 | the mesh holds nx, ny, the origin and the spacings (xMax − xMin)/nx and (yMax − yMin)/ny, with every table as the grid construction makes it |
| `RectangularMesh.UniformRectangularMesh2D.Node` | UniformRectangularMesh2D.cpp:103-112 | `mesh(K, a)` is the grid point at vertex a of element K |
| `RectangularMesh.UniformRectangularMesh2D.MeshValid` | UniformRectangularMesh2D.cpp:4-88 | a built mesh is a valid triangular mesh whose vertex lookup agrees with the generic one |
| `RectangularMesh.UniformRectangularMesh2D.EdgeOfRows` | UniformRectangularMesh2D.cpp:66-87 | an edge the arrays record is one the mesh value records |
| `RectangularMesh.UniformRectangularMesh2D.TablesInRange` | UniformRectangularMesh2D.cpp:29-77 | element vertices are node indices and every edge joins two node indices in increasing order |
| `RectangularMesh.UniformRectangularMesh2D.ElementEdgeTables` | UniformRectangularMesh2D.cpp:51-87 | two vertices of an element have a positive edge type and an edge id naming the edge between them |

## Left out

- The per-element integrals are parameters (`local`, `edgeLocal`, `mass`, `load` functions of the element and the local indices). The quadrature sums inside `L2Projection.h`, `EquationSystem2D.h` and `StokesFluid.cpp` are not modelled, and neither are the user's coefficient functions. The assembly is proved for any such integrator.
- Quadrature.GaussEdgeWeightsLocal: the edge length is a parameter that must satisfy `distance² = |A2 − A1|²` with `distance ≥ 0`, because there is no square root on exact reals (`sqrtl` in `Functions/Gauss-LegendreNodes.cpp:271`).
- Quadrature.Gauss2DWeightsLocal: requires a nondegenerate element, as the source's `ASSERT(area != 0.0)` demands.
- Debug `ASSERT`s on non-negative sizes and indices are `requires` clauses. The checks for infinite and NaN values in the update loops are left out, since exact reals have neither.
- `plot`, `plotField`, printing, file output, timers, move constructors, destructors and `delete` are left out. They are I/O or memory management.
- Matrices.Solve: requires nonzero pivots. The source divides by the pivot unchecked and yields infinity or NaN on a zero pivot; exact reals cannot represent that outcome.
- Matrices.Solve: requires `n ≥ 1`, because the source reads `x[0]` even for an empty system (`Matrix.cpp:158-197`).
- Matrices.Solve: the result is stated as `L(U x) = b` for the factors the elimination leaves (SolutionSatisfiesFactors). That those factors multiply back to A, and so that `A x = b`, is not proved.
- Matrices.SolutionSatisfiesFactors: stops at the two triangular solves; `L U = A` is not proved.
- Matrices.Matrix.DivideBy: requires `s ≠ 0`, since exact reals cannot hold the infinity the source produces.
- Projection1D.L2Projection: requires nonzero pivots of the mass matrix, because it calls Matrices.Solve.
- Projection1D.ProjectionCoefficients: requires nonzero pivots of the mass matrix, because it calls Matrices.Solve.
- Projection2D.L2Projection2D: requires nonzero pivots of the mass matrix, because it calls Matrices.Solve.
- Projection2D.ProjectionCoefficients2D: requires nonzero pivots of the mass matrix, because it calls Matrices.Solve.
- LegacyElliptic.SolveSystem: requires nonzero pivots of the reduced matrix and at least one free DOF, because it calls Matrices.Solve.
- EllipticSolver2D.EllipticProblem2D.SolveSystem: requires nonzero pivots of the reduced operator and at least one free DOF, because it calls Matrices.Solve.
- EllipticSolver2D.EllipticProblem2D.Update: requires nonzero pivots of the reduced operator and at least one free DOF, because it calls SolveSystem.
- EllipticSolver2D.SolveAndReinsert: requires nonzero pivots, because it calls Matrices.Solve.
- StokesFlow2D.StokesProblem2D.SolveSystem: requires nonzero pivots of the reduced saddle-point matrix, because it calls Matrices.Solve.
- StokesFlow2D.StokesProblem2D.Update: requires nonzero pivots of the reduced saddle-point matrix, because it calls SolveSystem.
- StokesFlow2D.SolveSaddleSystem: requires nonzero pivots of the reduced saddle-point matrix, because it calls Matrices.Solve.
- StokesFlow2D.SolveSaddle: requires nonzero pivots of the reduced saddle-point matrix, because it calls Matrices.Solve.
- StokesFlow2D.SolveAndReinsertBlocks: requires nonzero pivots, because it calls Matrices.Solve.
- LegacyElliptic.RemoveBoundaryFromMatrices: the source removes index `boundaryIndices[i]` from all eleven objects in one descending loop (`Elliptic2DABCF.cpp:27-41`). The model uses one descending loop over the five matrices and one over the six vectors. The objects are distinct, so the split cannot be observed.
- The `removeBoundaryIndices` helpers declared at `EquationSystems/2D/EquationSystem2D.h:25-27` have no body in the available source. The model gives them the descending-removal behaviour of the legacy solver.
- StokesFlow2D.StokesProblem2D.constructor: requires one mesh object for both spaces. The source only asserts that the two spaces have meshes of equal size.
- StokesFlow2D.AssembleStokesMatrix: the source stores M as a nested `std::vector` and calls the nested-vector `solve` at `Matrix.cpp:206-245`. The model uses the `Matrix` class and its `solve`, which is the same algorithm.
- The header `StokesFluid.h:14` declares a constructor taking one body force `f`, `nu`, `rho` and a natural boundary condition, and declares no `update`. The definitions at `StokesFluid.cpp:9-16` take two body-force components `f1` and `f2`, `nu` and `rho`, and `StokesFluid.cpp:142-154` defines `update`. The model follows the definitions.
- The debug consistency checks at `StokesFluid.cpp:67-79` are left out. Line 70 checks `Mpu_0x.columns` twice where `Mpu_0y` was evidently meant; the model does not depend on either check.
- StokesFlow2D.StokesProblem2D.Update: the source's single loop over velocity nodes that writes u1 and u2 is stated through two writes of one unknown each (WithUnknown). The nodes are distinct array cells, so the result is the same.
- EquationSystem2D.NaturalBoundaryVector2D: requires BoundaryEdgesTagged, i.e. that both ends of each boundary edge carry a boundary tag. The source asserts this inside the loop (`EquationSystems/2D/EquationSystem2D.h:70`).
- The body of `UniformRectangularMesh2D::setBoundaryConditions` (declared at `Meshing/2D/UniformRectangularMesh2D.h:33-35`) is not part of this model. The rectangular mesh class is therefore built with `numBoundaryNodes = -1`, and the 2D spaces take already tagged meshes as values.
- FiniteElementMethod2D.FEM2D.Evaluate: requires every element to be nondegenerate, because the containment test divides by the element's Jacobian determinant; the source divides unchecked.
- FiniteElementMethod2D.FEM2D.Evaluate: shape functions exist for degrees 1 and 2 only, as in the source; other degrees and derivatives of order two give an error result.
- `Elliptic1DACF`, `ACF`, `ABCF`, `Updater`, `ErrorAnalysis`, `UnstructuredMesh2D` and the homework drivers are not part of this model.

## Findings

| source | as written | input that shows it | evidently intended | confidence | as-written member | corrected member |
|---|---|---|---|---|---|---|
| Matrix.cpp:142-156 | `determinant` handles size 2 directly and otherwise expands along the first row. For a 1×1 matrix the expansion multiplies the entry by the determinant of the empty minor, which the same loop makes 0. | the 1×1 matrix [[1.0]]: as written 0 | the determinant of [[a]] is a, so [[1.0]] gives 1 | not executed | Matrices.SourceDeterminantOneByOne | Matrices.DeterminantOfIdentity |
