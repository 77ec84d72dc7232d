/**
  The five-point finite-difference stencil of -(u_xx + u_yy) on a grid with
  non-uniform spacing: the weights of the South, West, centre, East and North
  neighbours of an interior point, computed from the four one-sided spacings.
 */
module StencilCoefficients {

  /** Weights of the neighbours (i, j-1), (i-1, j), (i, j), (i+1, j), (i, j+1). */
  datatype Stencil = Stencil(south: real, west: real, centre: real, east: real, north: real)

  /**
    Weights for spacings dx1 = x[i]-x[i-1], dx2 = x[i+1]-x[i], dy1 = y[j]-y[j-1],
    dy2 = y[j+1]-y[j]: a positive centre, negative neighbours, and a zero row sum.
   */
  function Coefficients(dx1: real, dx2: real, dy1: real, dy2: real): (s: Stencil)
    requires dx1 > 0.0 && dx2 > 0.0 && dy1 > 0.0 && dy2 > 0.0
    ensures s.south + s.west + s.centre + s.east + s.north == 0.0
    ensures s.centre > 0.0
    ensures s.south < 0.0 && s.west < 0.0 && s.east < 0.0 && s.north < 0.0
  {
    AxisMoments(dx1, dx2);
    AxisMoments(dy1, dy2);
    Stencil(-2.0 / (dy1 * (dy1 + dy2)),
            -2.0 / (dx1 * (dx1 + dx2)),
            2.0 / (dx1 * dx2) + 2.0 / (dy1 * dy2),
            -2.0 / (dx2 * (dx1 + dx2)),
            -2.0 / (dy2 * (dy1 + dy2)))
  }

  /**
    Along one axis with spacings d1 (behind) and d2 (ahead), the weights
    w1 = -2/(d1(d1+d2)), c = 2/(d1 d2), w2 = -2/(d2(d1+d2)) annihilate
    constants and linear functions and give -2 on t*t.
   */
  lemma AxisMoments(d1: real, d2: real)
    requires d1 > 0.0 && d2 > 0.0
    ensures -2.0 / (d1 * (d1 + d2)) + 2.0 / (d1 * d2) + -2.0 / (d2 * (d1 + d2)) == 0.0
    ensures (-2.0 / (d1 * (d1 + d2))) * d1 == (-2.0 / (d2 * (d1 + d2))) * d2
    ensures (-2.0 / (d1 * (d1 + d2))) * (d1 * d1) + (-2.0 / (d2 * (d1 + d2))) * (d2 * d2) == -2.0
    ensures -2.0 / (d1 * (d1 + d2)) < 0.0 && -2.0 / (d2 * (d1 + d2)) < 0.0 && 2.0 / (d1 * d2) > 0.0
  {
    var s := d1 + d2;
    var w1, c, w2 := -2.0 / (d1 * s), 2.0 / (d1 * d2), -2.0 / (d2 * s);
    assert d1 * s > 0.0 && d2 * s > 0.0 && d1 * d2 > 0.0;
    assert w1 * d1 == -2.0 / s by {
      assert w1 * (d1 * s) == -2.0;
    }
    assert w2 * d2 == -2.0 / s by {
      assert w2 * (d2 * s) == -2.0;
    }
    assert c * d1 * d2 == 2.0;
    assert (w1 + c + w2) * (d1 * d2 * s) == 0.0 by {
      assert w1 * (d1 * d2 * s) == -2.0 * d2 by {
        assert w1 * (d1 * s) == -2.0;
      }
      assert w2 * (d1 * d2 * s) == -2.0 * d1 by {
        assert w2 * (d2 * s) == -2.0;
      }
      assert c * (d1 * d2 * s) == 2.0 * s by {
        assert c * (d1 * d2) == 2.0;
      }
    }
    assert w1 * (d1 * d1) + w2 * (d2 * d2) == (-2.0 / s) * (d1 + d2) by {
      assert w1 * (d1 * d1) == (w1 * d1) * d1;
      assert w2 * (d2 * d2) == (w2 * d2) * d2;
    }
  }

  /** On a uniform grid of spacing h the stencil is the classic 5-point Laplacian. */
  lemma UniformGrid(h: real)
    requires h > 0.0
    ensures Coefficients(h, h, h, h)
         == Stencil(-1.0 / (h * h), -1.0 / (h * h), 4.0 / (h * h), -1.0 / (h * h), -1.0 / (h * h))
  {
    assert h * (h + h) == 2.0 * (h * h);
    assert -2.0 / (2.0 * (h * h)) == -1.0 / (h * h);
    assert 2.0 / (h * h) + 2.0 / (h * h) == 4.0 / (h * h);
  }

  /** A quadratic polynomial in two variables. */
  datatype Quadratic = Quadratic(xx: real, yy: real, xy: real, x: real, y: real, c: real)

  function Eval(q: Quadratic, px: real, py: real): real
  {
    q.xx * px * px + q.yy * py * py + q.xy * px * py + q.x * px + q.y * py + q.c
  }

  /**
    Consistency: on any spacings, the stencil applied to the values of a quadratic
    q at the five points equals -(q_xx + q_yy) exactly. The scheme is second order
    only on a uniform grid; with unequal spacings the error term in q''' is first order.
   */
  lemma ExactOnQuadratics(dx1: real, dx2: real, dy1: real, dy2: real, q: Quadratic, px: real, py: real)
    requires dx1 > 0.0 && dx2 > 0.0 && dy1 > 0.0 && dy2 > 0.0
    ensures (var s := Coefficients(dx1, dx2, dy1, dy2);
             s.south * Eval(q, px, py - dy1) + s.west * Eval(q, px - dx1, py)
             + s.centre * Eval(q, px, py) + s.east * Eval(q, px + dx2, py)
             + s.north * Eval(q, px, py + dy2))
         == -(2.0 * q.xx + 2.0 * q.yy)
  {
    var s := Coefficients(dx1, dx2, dy1, dy2);
    ExactAlongX(dx1, dx2, q, px, py);
    ExactAlongY(dy1, dy2, q, px, py);
    Combine(s, 2.0 / (dx1 * dx2), 2.0 / (dy1 * dy2), Eval(q, px, py - dy1), Eval(q, px - dx1, py), Eval(q, px, py),
            Eval(q, px + dx2, py), Eval(q, px, py + dy2), -2.0 * q.xx, -2.0 * q.yy);
  }

  /** The x-weights on the West, centre and East values of a quadratic give -q_xx. */
  lemma ExactAlongX(dx1: real, dx2: real, q: Quadratic, px: real, py: real)
    requires dx1 > 0.0 && dx2 > 0.0
    ensures (-2.0 / (dx1 * (dx1 + dx2))) * Eval(q, px - dx1, py) + (2.0 / (dx1 * dx2)) * Eval(q, px, py)
            + (-2.0 / (dx2 * (dx1 + dx2))) * Eval(q, px + dx2, py) == -2.0 * q.xx
  {
    var gx := 2.0 * q.xx * px + q.xy * py + q.x;
    ShiftX(q, px, py, dx1);
    ShiftX(q, px, py, dx2);
    AxisExact(dx1, dx2, Eval(q, px, py), gx, q.xx, Eval(q, px - dx1, py), Eval(q, px + dx2, py));
  }

  /** The y-weights on the South, centre and North values of a quadratic give -q_yy. */
  lemma ExactAlongY(dy1: real, dy2: real, q: Quadratic, px: real, py: real)
    requires dy1 > 0.0 && dy2 > 0.0
    ensures (-2.0 / (dy1 * (dy1 + dy2))) * Eval(q, px, py - dy1) + (2.0 / (dy1 * dy2)) * Eval(q, px, py)
            + (-2.0 / (dy2 * (dy1 + dy2))) * Eval(q, px, py + dy2) == -2.0 * q.yy
  {
    var gy := 2.0 * q.yy * py + q.xy * px + q.y;
    ShiftY(q, px, py, dy1);
    ShiftY(q, px, py, dy2);
    AxisExact(dy1, dy2, Eval(q, px, py), gy, q.yy, Eval(q, px, py - dy1), Eval(q, px, py + dy2));
  }

  /** Taylor expansion in x, exact for a quadratic, a step d back and a step d ahead. */
  lemma ShiftX(q: Quadratic, px: real, py: real, d: real)
    ensures Eval(q, px - d, py) == Eval(q, px, py) - (2.0 * q.xx * px + q.xy * py + q.x) * d + q.xx * (d * d)
    ensures Eval(q, px + d, py) == Eval(q, px, py) + (2.0 * q.xx * px + q.xy * py + q.x) * d + q.xx * (d * d)
  {
  }

  /** Taylor expansion in y, exact for a quadratic, a step d back and a step d ahead. */
  lemma ShiftY(q: Quadratic, px: real, py: real, d: real)
    ensures Eval(q, px, py - d) == Eval(q, px, py) - (2.0 * q.yy * py + q.xy * px + q.y) * d + q.yy * (d * d)
    ensures Eval(q, px, py + d) == Eval(q, px, py) + (2.0 * q.yy * py + q.xy * px + q.y) * d + q.yy * (d * d)
  {
  }

  /**
    One axis: the weights behind, at and ahead of the point, applied to the values
    e1, v, e2 of a function with slope g and second derivative 2a, give -2a.
   */
  lemma AxisExact(d1: real, d2: real, v: real, g: real, a: real, e1: real, e2: real)
    requires d1 > 0.0 && d2 > 0.0
    requires e1 == v - g * d1 + a * (d1 * d1) && e2 == v + g * d2 + a * (d2 * d2)
    ensures (-2.0 / (d1 * (d1 + d2))) * e1 + (2.0 / (d1 * d2)) * v + (-2.0 / (d2 * (d1 + d2))) * e2 == -2.0 * a
  {
    AxisMoments(d1, d2);
    AxisSum(-2.0 / (d1 * (d1 + d2)), 2.0 / (d1 * d2), -2.0 / (d2 * (d1 + d2)), d1, d2, v, g, a, e1, e2);
  }

  /** The three moments of the weights turn a quadratic's three values into -2a. */
  lemma AxisSum(w1: real, c: real, w2: real, d1: real, d2: real, v: real, g: real, a: real, e1: real, e2: real)
    requires w1 + c + w2 == 0.0 && w1 * d1 == w2 * d2 && w1 * (d1 * d1) + w2 * (d2 * d2) == -2.0
    requires e1 == v - g * d1 + a * (d1 * d1) && e2 == v + g * d2 + a * (d2 * d2)
    ensures w1 * e1 + c * v + w2 * e2 == -2.0 * a
  {
    calc {
      w1 * e1 + c * v + w2 * e2;
      (w1 + c + w2) * v + g * (w2 * d2 - w1 * d1) + a * (w1 * (d1 * d1) + w2 * (d2 * d2));
      -2.0 * a;
    }
  }

  /** The centre weight is shared by the two axes, so the five-point sum is the sum of the two axis sums. */
  lemma Combine(s: Stencil, cx: real, cy: real, es: real, ew: real, v: real, ee: real, en: real, ax: real, ay: real)
    requires s.centre == cx + cy
    requires s.west * ew + cx * v + s.east * ee == ax && s.south * es + cy * v + s.north * en == ay
    ensures s.south * es + s.west * ew + s.centre * v + s.east * ee + s.north * en == ax + ay
  {
    assert s.centre * v == cx * v + cy * v;
  }
}
