/**
 * Properties of the pull-back (Functions/LagrangeShapeFunctions2D.h): the
 * inverse map and the element map undo each other, the chain rule holds for
 * every first derivative, and the physical shape functions keep the
 * partition of unity and the Kronecker property of the reference ones.
 */
module PullBackProperties2D {
  import opened Boundary
  import opened Quadrature
  import opened Shape2D
  import opened PullBack2D

  /** Inverse(m) is the two-sided inverse of m. */
  lemma InverseProducts(m: Mat2)
    requires Det(m) != 0.0
    ensures var r := Inverse(m);
      && r.a00 * m.a00 + r.a01 * m.a10 == 1.0 && r.a00 * m.a01 + r.a01 * m.a11 == 0.0
      && r.a10 * m.a00 + r.a11 * m.a10 == 0.0 && r.a10 * m.a01 + r.a11 * m.a11 == 1.0
      && m.a00 * r.a00 + m.a01 * r.a10 == 1.0 && m.a00 * r.a01 + m.a01 * r.a11 == 0.0
      && m.a10 * r.a00 + m.a11 * r.a10 == 0.0 && m.a10 * r.a01 + m.a11 * r.a11 == 1.0
  {
    var d := Det(m);
    var r := Inverse(m);
    assert r.a00 * m.a00 + r.a01 * m.a10 == (m.a11 * m.a00 - m.a01 * m.a10) / d;
    assert r.a10 * m.a01 + r.a11 * m.a11 == (m.a00 * m.a11 - m.a10 * m.a01) / d;
    assert m.a00 * r.a00 + m.a01 * r.a10 == (m.a00 * m.a11 - m.a01 * m.a10) / d;
    assert m.a10 * r.a01 + m.a11 * r.a11 == (m.a11 * m.a00 - m.a10 * m.a01) / d;
  }

  /** Inverse(m) undoes m on every vector, from either side. */
  lemma ApplyInverse(m: Mat2, v: Point)
    requires Det(m) != 0.0
    ensures Apply(m, Apply(Inverse(m), v)) == v && Apply(Inverse(m), Apply(m, v)) == v
  {
    InverseProducts(m);
    ApplyBoth(m, Inverse(m), v);
  }

  /** Two matrices whose products are the identity either way undo each other on v. */
  lemma ApplyBoth(m: Mat2, r: Mat2, v: Point)
    requires r.a00 * m.a00 + r.a01 * m.a10 == 1.0 && r.a00 * m.a01 + r.a01 * m.a11 == 0.0
    requires r.a10 * m.a00 + r.a11 * m.a10 == 0.0 && r.a10 * m.a01 + r.a11 * m.a11 == 1.0
    requires m.a00 * r.a00 + m.a01 * r.a10 == 1.0 && m.a00 * r.a01 + m.a01 * r.a11 == 0.0
    requires m.a10 * r.a00 + m.a11 * r.a10 == 0.0 && m.a10 * r.a01 + m.a11 * r.a11 == 1.0
    ensures Apply(m, Apply(r, v)) == v && Apply(r, Apply(m, v)) == v
  {
    ApplyOneWay(m, r, v);
    ApplyOneWay(r, m, v);
  }

  /** A matrix B with B Binv = I undoes Binv on v. */
  lemma ApplyOneWay(B: Mat2, Binv: Mat2, v: Point)
    requires B.a00 * Binv.a00 + B.a01 * Binv.a10 == 1.0 && B.a00 * Binv.a01 + B.a01 * Binv.a11 == 0.0
    requires B.a10 * Binv.a00 + B.a11 * Binv.a10 == 0.0 && B.a10 * Binv.a01 + B.a11 * Binv.a11 == 1.0
    ensures Apply(B, Apply(Binv, v)) == v
  {
    MapInverse(B, Binv, v.x, v.y);
    assert Apply(B, Apply(Binv, v)) == Point(v.x, v.y);
  }

  /** B (B^-1 v) = v, written out. */
  lemma MapInverse(B: Mat2, Binv: Mat2, vx: real, vy: real)
    requires B.a00 * Binv.a00 + B.a01 * Binv.a10 == 1.0 && B.a00 * Binv.a01 + B.a01 * Binv.a11 == 0.0
    requires B.a10 * Binv.a00 + B.a11 * Binv.a10 == 0.0 && B.a10 * Binv.a01 + B.a11 * Binv.a11 == 1.0
    ensures B.a00 * (Binv.a00 * vx + Binv.a01 * vy) + B.a01 * (Binv.a10 * vx + Binv.a11 * vy) == vx
    ensures B.a10 * (Binv.a00 * vx + Binv.a01 * vy) + B.a11 * (Binv.a10 * vx + Binv.a11 * vy) == vy
  {
    assert B.a00 * (Binv.a00 * vx + Binv.a01 * vy) + B.a01 * (Binv.a10 * vx + Binv.a11 * vy)
        == (B.a00 * Binv.a00 + B.a01 * Binv.a10) * vx + (B.a00 * Binv.a01 + B.a01 * Binv.a11) * vy;
    assert B.a10 * (Binv.a00 * vx + Binv.a01 * vy) + B.a11 * (Binv.a10 * vx + Binv.a11 * vy)
        == (B.a10 * Binv.a00 + B.a11 * Binv.a10) * vx + (B.a10 * Binv.a01 + B.a11 * Binv.a11) * vy;
  }

  /** The element map is A1 plus B applied to t. */
  lemma MapIsAffine(A1: Point, A2: Point, A3: Point, t: Point)
    ensures var Bt := Apply(Transformation(A1, A2, A3), t);
      MapToElement(A1, A2, A3, t) == Point(Bt.x + A1.x, Bt.y + A1.y)
  {
    var px, qx := (A2.x - A1.x) * t.x, (A3.x - A1.x) * t.y;
    var py, qy := (A2.y - A1.y) * t.x, (A3.y - A1.y) * t.y;
    assert Apply(Transformation(A1, A2, A3), t) == Point(px + qx, py + qy);
    assert MapToElement(A1, A2, A3, t) == Point(px + qx + A1.x, py + qy + A1.y);
  }

  /** The element map sends ToReference(P) back to P. */
  lemma MapOfToReference(A1: Point, A2: Point, A3: Point, P: Point)
    requires Jacobian(A1, A2, A3) != 0.0
    ensures MapToElement(A1, A2, A3, ToReference(A1, A2, A3, P)) == P
  {
    var B, v := Transformation(A1, A2, A3), Point(P.x - A1.x, P.y - A1.y);
    TransformationDet(A1, A2, A3);
    ApplyInverse(B, v);
    MapIsAffine(A1, A2, A3, ToReference(A1, A2, A3, P));
  }

  /** ToReference undoes the element map: in particular A1, A2, A3 go back to (0, 0), (1, 0), (0, 1). */
  lemma ToReferenceOfMap(A1: Point, A2: Point, A3: Point, t: Point)
    requires Jacobian(A1, A2, A3) != 0.0
    ensures ToReference(A1, A2, A3, MapToElement(A1, A2, A3, t)) == t
  {
    var B := Transformation(A1, A2, A3);
    TransformationDet(A1, A2, A3);
    ApplyInverse(B, t);
    MapIsAffine(A1, A2, A3, t);
    var P := MapToElement(A1, A2, A3, t);
    assert Point(P.x - A1.x, P.y - A1.y) == Apply(B, t);
  }

  /** The pulled-back functions add up to one and their first derivatives to zero, for any t and any matrix. */
  lemma PullBackPartitionOfUnity(t: Point, Binv: Mat2, p: int, dx: nat, dy: nat)
    requires (p == 1 || p == 2) && dx + dy <= 1
    ensures PullBackSum(t, Binv, p, dx, dy) == if dx == 0 && dy == 0 then 1.0 else 0.0
  {
    if dx + dy == 0 {
      Degree1PartitionOfUnity(t.x, t.y, 0, 0);
      Degree2PartitionOfUnity(t.x, t.y, 0, 0);
    } else if p == 1 {
      Degree1GradientSum(t, Binv, dx, dy);
    } else {
      Degree2GradientSum(t, Binv, dx, dy);
    }
  }

  /** The first derivatives of the degree-1 pulled-back functions add up to zero. */
  lemma Degree1GradientSum(t: Point, Binv: Mat2, dx: nat, dy: nat)
    requires dx + dy == 1
    ensures PullBackSum(t, Binv, 1, dx, dy) == 0.0
  {
    Degree1PartitionOfUnity(t.x, t.y, 1, 0);
    Degree1PartitionOfUnity(t.x, t.y, 0, 1);
    if dx == 1 {
      GradientEntryX(t, Binv, 1, 0);
      GradientEntryX(t, Binv, 1, 1);
      GradientEntryX(t, Binv, 1, 2);
      ColumnSum(Binv.a00, Binv.a10,
        PullBack(t, Binv, 1, 0, 1, 0).value, PullBack(t, Binv, 1, 1, 1, 0).value, PullBack(t, Binv, 1, 2, 1, 0).value,
        0.0, 0.0, 0.0,
        Degree1(t.x, t.y, 0, 1, 0), Degree1(t.x, t.y, 1, 1, 0), Degree1(t.x, t.y, 2, 1, 0),
        0.0, 0.0, 0.0,
        Degree1(t.x, t.y, 0, 0, 1), Degree1(t.x, t.y, 1, 0, 1), Degree1(t.x, t.y, 2, 0, 1),
        0.0, 0.0, 0.0);
    } else {
      GradientEntryY(t, Binv, 1, 0);
      GradientEntryY(t, Binv, 1, 1);
      GradientEntryY(t, Binv, 1, 2);
      ColumnSum(Binv.a01, Binv.a11,
        PullBack(t, Binv, 1, 0, 0, 1).value, PullBack(t, Binv, 1, 1, 0, 1).value, PullBack(t, Binv, 1, 2, 0, 1).value,
        0.0, 0.0, 0.0,
        Degree1(t.x, t.y, 0, 1, 0), Degree1(t.x, t.y, 1, 1, 0), Degree1(t.x, t.y, 2, 1, 0),
        0.0, 0.0, 0.0,
        Degree1(t.x, t.y, 0, 0, 1), Degree1(t.x, t.y, 1, 0, 1), Degree1(t.x, t.y, 2, 0, 1),
        0.0, 0.0, 0.0);
    }
  }

  /** The first derivatives of the degree-2 pulled-back functions add up to zero. */
  lemma Degree2GradientSum(t: Point, Binv: Mat2, dx: nat, dy: nat)
    requires dx + dy == 1
    ensures PullBackSum(t, Binv, 2, dx, dy) == 0.0
  {
    if dx == 1 {
      Degree2GradientSumX(t, Binv);
    } else {
      Degree2GradientSumY(t, Binv);
    }
  }

  /** The x-derivatives of the degree-2 pulled-back functions add up to zero. */
  lemma Degree2GradientSumX(t: Point, Binv: Mat2)
    ensures PullBackSum(t, Binv, 2, 1, 0) == 0.0
  {
    Degree2PartitionOfUnity(t.x, t.y, 1, 0);
    Degree2PartitionOfUnity(t.x, t.y, 0, 1);
    GradientEntryX(t, Binv, 2, 0);
    GradientEntryX(t, Binv, 2, 1);
    GradientEntryX(t, Binv, 2, 2);
    GradientEntryX(t, Binv, 2, 3);
    GradientEntryX(t, Binv, 2, 4);
    GradientEntryX(t, Binv, 2, 5);
    ColumnSum(Binv.a00, Binv.a10,
      PullBack(t, Binv, 2, 0, 1, 0).value, PullBack(t, Binv, 2, 1, 1, 0).value, PullBack(t, Binv, 2, 2, 1, 0).value,
      PullBack(t, Binv, 2, 3, 1, 0).value, PullBack(t, Binv, 2, 4, 1, 0).value, PullBack(t, Binv, 2, 5, 1, 0).value,
      Degree2(t.x, t.y, 0, 1, 0), Degree2(t.x, t.y, 1, 1, 0), Degree2(t.x, t.y, 2, 1, 0),
      Degree2(t.x, t.y, 3, 1, 0), Degree2(t.x, t.y, 4, 1, 0), Degree2(t.x, t.y, 5, 1, 0),
      Degree2(t.x, t.y, 0, 0, 1), Degree2(t.x, t.y, 1, 0, 1), Degree2(t.x, t.y, 2, 0, 1),
      Degree2(t.x, t.y, 3, 0, 1), Degree2(t.x, t.y, 4, 0, 1), Degree2(t.x, t.y, 5, 0, 1));
  }

  /** The y-derivatives of the degree-2 pulled-back functions add up to zero. */
  lemma Degree2GradientSumY(t: Point, Binv: Mat2)
    ensures PullBackSum(t, Binv, 2, 0, 1) == 0.0
  {
    Degree2PartitionOfUnity(t.x, t.y, 1, 0);
    Degree2PartitionOfUnity(t.x, t.y, 0, 1);
    GradientEntryY(t, Binv, 2, 0);
    GradientEntryY(t, Binv, 2, 1);
    GradientEntryY(t, Binv, 2, 2);
    GradientEntryY(t, Binv, 2, 3);
    GradientEntryY(t, Binv, 2, 4);
    GradientEntryY(t, Binv, 2, 5);
    ColumnSum(Binv.a01, Binv.a11,
      PullBack(t, Binv, 2, 0, 0, 1).value, PullBack(t, Binv, 2, 1, 0, 1).value, PullBack(t, Binv, 2, 2, 0, 1).value,
      PullBack(t, Binv, 2, 3, 0, 1).value, PullBack(t, Binv, 2, 4, 0, 1).value, PullBack(t, Binv, 2, 5, 0, 1).value,
      Degree2(t.x, t.y, 0, 1, 0), Degree2(t.x, t.y, 1, 1, 0), Degree2(t.x, t.y, 2, 1, 0),
      Degree2(t.x, t.y, 3, 1, 0), Degree2(t.x, t.y, 4, 1, 0), Degree2(t.x, t.y, 5, 1, 0),
      Degree2(t.x, t.y, 0, 0, 1), Degree2(t.x, t.y, 1, 0, 1), Degree2(t.x, t.y, 2, 0, 1),
      Degree2(t.x, t.y, 3, 0, 1), Degree2(t.x, t.y, 4, 0, 1), Degree2(t.x, t.y, 5, 0, 1));
  }

  /** The x-derivative of a pulled-back function is the first column of Binv against the reference gradient. */
  lemma GradientEntryX(t: Point, Binv: Mat2, p: int, j: int)
    requires (p == 1 || p == 2) && 0 <= j < ShapeCount(p)
    ensures PullBack(t, Binv, p, j, 1, 0).value
         == Binv.a00 * RefLagrange2D(t.x, t.y, p, j, 1, 0).value + Binv.a10 * RefLagrange2D(t.x, t.y, p, j, 0, 1).value
  {
  }

  /** The y-derivative of a pulled-back function is the second column of Binv against the reference gradient. */
  lemma GradientEntryY(t: Point, Binv: Mat2, p: int, j: int)
    requires (p == 1 || p == 2) && 0 <= j < ShapeCount(p)
    ensures PullBack(t, Binv, p, j, 0, 1).value
         == Binv.a01 * RefLagrange2D(t.x, t.y, p, j, 1, 0).value + Binv.a11 * RefLagrange2D(t.x, t.y, p, j, 0, 1).value
  {
  }

  /** Six terms s_j = c_x a_j + c_y b_j add up to zero when the a_j and the b_j do. */
  lemma ColumnSum(cx: real, cy: real, s0: real, s1: real, s2: real, s3: real, s4: real, s5: real,
                  a0: real, a1: real, a2: real, a3: real, a4: real, a5: real,
                  b0: real, b1: real, b2: real, b3: real, b4: real, b5: real)
    requires s0 == cx * a0 + cy * b0 && s1 == cx * a1 + cy * b1 && s2 == cx * a2 + cy * b2
    requires s3 == cx * a3 + cy * b3 && s4 == cx * a4 + cy * b4 && s5 == cx * a5 + cy * b5
    requires a0 + a1 + a2 + a3 + a4 + a5 == 0.0 && b0 + b1 + b2 + b3 + b4 + b5 == 0.0
    ensures s0 + s1 + s2 + s3 + s4 + s5 == 0.0
  {
    assert s0 + s1 + s2 + s3 + s4 + s5 == cx * (a0 + a1 + a2 + a3 + a4 + a5) + cy * (b0 + b1 + b2 + b3 + b4 + b5);
  }

  /** On a physical triangle the shape functions still add up to one, so their gradients add up to zero. */
  lemma ShapePartitionOfUnity2D(x: real, y: real, A1: Point, A2: Point, A3: Point, p: int, dx: nat, dy: nat)
    requires Jacobian(A1, A2, A3) != 0.0 && (p == 1 || p == 2) && dx + dy <= 1
    requires NearReferenceTriangle(ToReference(A1, A2, A3, Point(x, y)))
    ensures ShapeSum2D(x, y, A1, A2, A3, p, dx, dy) == if dx == 0 && dy == 0 then 1.0 else 0.0
  {
    var t, Binv := ToReference(A1, A2, A3, Point(x, y)), InverseTransformation(A1, A2, A3);
    PullBackPartitionOfUnity(t, Binv, p, dx, dy);
    assert ShapeSum2D(x, y, A1, A2, A3, p, dx, dy) == PullBackSum(t, Binv, p, dx, dy);
  }

  /** ToReference is affine: a step (h, k) in the triangle is the step B^-1 (h, k) in the reference triangle. */
  lemma ToReferenceStep(A1: Point, A2: Point, A3: Point, P: Point, h: real, k: real)
    requires Jacobian(A1, A2, A3) != 0.0
    ensures var t, Binv := ToReference(A1, A2, A3, P), InverseTransformation(A1, A2, A3);
      ToReference(A1, A2, A3, Point(P.x + h, P.y + k)) == Point(t.x + Apply(Binv, Point(h, k)).x, t.y + Apply(Binv, Point(h, k)).y)
  {
    assert Point((P.x + h) - A1.x, (P.y + k) - A1.y) == Point((P.x - A1.x) + h, (P.y - A1.y) + k);
    ApplyStep(InverseTransformation(A1, A2, A3), P.x - A1.x, P.y - A1.y, h, k);
  }

  /** A matrix applied to (u + h, v + k) is the matrix applied to (u, v) plus the matrix applied to (h, k). */
  lemma ApplyStep(m: Mat2, u: real, v: real, h: real, k: real)
    ensures Apply(m, Point(u + h, v + k)) == Point(Apply(m, Point(u, v)).x + Apply(m, Point(h, k)).x, Apply(m, Point(u, v)).y + Apply(m, Point(h, k)).y)
  {
    assert m.a00 * (u + h) + m.a01 * (v + k) == (m.a00 * u + m.a01 * v) + (m.a00 * h + m.a01 * k);
    assert m.a10 * (u + h) + m.a11 * (v + k) == (m.a10 * u + m.a11 * v) + (m.a10 * h + m.a11 * k);
  }

  /** A degree-1 pulled-back function changes by exactly h d/dx + k d/dy when t moves by B^-1 (h, k). */
  lemma PullBackExact(t: Point, Binv: Mat2, h: real, k: real, j: int)
    requires 0 <= j < 3
    ensures var s := Point(t.x + Apply(Binv, Point(h, k)).x, t.y + Apply(Binv, Point(h, k)).y);
      PullBack(s, Binv, 1, j, 0, 0).value
        == PullBack(t, Binv, 1, j, 0, 0).value + h * PullBack(t, Binv, 1, j, 1, 0).value + k * PullBack(t, Binv, 1, j, 0, 1).value
  {
    var sx, sy := Binv.a00 * h + Binv.a01 * k, Binv.a10 * h + Binv.a11 * k;
    var gx, gy := Degree1(t.x, t.y, j, 1, 0), Degree1(t.x, t.y, j, 0, 1);
    Degree1Exact(t.x, t.y, sx, sy, j);
    assert sx * gx + sy * gy == h * (Binv.a00 * gx + Binv.a10 * gy) + k * (Binv.a01 * gx + Binv.a11 * gy);
  }

  /** A shape function on a triangle is its reference function pulled back through ToReference and B^-1. */
  lemma ShapeIsPullBack(x: real, y: real, A1: Point, A2: Point, A3: Point, p: int, j: int, dx: nat, dy: nat)
    requires Jacobian(A1, A2, A3) != 0.0 && ShapeIndexFits(p, j)
    requires NearReferenceTriangle(ToReference(A1, A2, A3, Point(x, y)))
    ensures ShapeFunction2D(x, y, A1, A2, A3, p, j, dx, dy)
         == PullBack(ToReference(A1, A2, A3, Point(x, y)), InverseTransformation(A1, A2, A3), p, j, dx, dy)
  {
  }

  /**
   * The chain rule is right: on a physical triangle a degree-1 shape function
   * changes by exactly h times its x-derivative plus k times its y-derivative
   * under a step (h, k) that stays in the triangle.
   */
  lemma ShapeExact2D(x: real, y: real, h: real, k: real, A1: Point, A2: Point, A3: Point, j: int)
    requires Jacobian(A1, A2, A3) != 0.0 && 0 <= j < 3
    requires NearReferenceTriangle(ToReference(A1, A2, A3, Point(x, y)))
    requires NearReferenceTriangle(ToReference(A1, A2, A3, Point(x + h, y + k)))
    ensures ShapeFunction2D(x + h, y + k, A1, A2, A3, 1, j, 0, 0).value
         == ShapeFunction2D(x, y, A1, A2, A3, 1, j, 0, 0).value
            + h * ShapeFunction2D(x, y, A1, A2, A3, 1, j, 1, 0).value + k * ShapeFunction2D(x, y, A1, A2, A3, 1, j, 0, 1).value
  {
    var t, Binv := ToReference(A1, A2, A3, Point(x, y)), InverseTransformation(A1, A2, A3);
    ToReferenceStep(A1, A2, A3, Point(x, y), h, k);
    PullBackExact(t, Binv, h, k, j);
    ShapeIsPullBack(x + h, y + k, A1, A2, A3, 1, j, 0, 0);
    ShapeIsPullBack(x, y, A1, A2, A3, 1, j, 0, 0);
    ShapeIsPullBack(x, y, A1, A2, A3, 1, j, 1, 0);
    ShapeIsPullBack(x, y, A1, A2, A3, 1, j, 0, 1);
  }

  /**
   * The physical shape functions keep the Kronecker property: function j is
   * one at the image of reference node j and zero at the images of the others.
   */
  lemma ShapeKronecker2D(A1: Point, A2: Point, A3: Point, p: int, j: int, k: int)
    requires Jacobian(A1, A2, A3) != 0.0 && (p == 1 || p == 2) && 0 <= j < ShapeCount(p) && 0 <= k < ShapeCount(p)
    ensures var P := MapToElement(A1, A2, A3, RefNode(p, k));
      && ToReference(A1, A2, A3, P) == RefNode(p, k)
      && ShapeFunction2D(P.x, P.y, A1, A2, A3, p, j, 0, 0) == Ok(if j == k then 1.0 else 0.0)
  {
    var P := MapToElement(A1, A2, A3, RefNode(p, k));
    ToReferenceOfMap(A1, A2, A3, RefNode(p, k));
    assert Point(P.x, P.y) == P;
    if p == 1 {
      Degree1Kronecker(j, k);
    } else {
      Degree2Kronecker(j, k);
    }
  }
}
