/**
 The geometry of one symmetric pair: the angle that the line through the two
 points makes with the x-axis, their midpoint, and the (r, θ) vote built from
 them (mirror_symmetry.py, angle_with_x_axis, midpoint and lines 121-126).

 Trigonometry is not computed here. The arctangent, cosine and sine the
 program takes from numpy are passed in as a `Trig` value, together with the
 number π; `Trig.Valid` states the only facts the proofs rely on.
 */
module Geometry {

  /** A pixel-space coordinate (x, y); `pt` of a keypoint. */
  datatype Point = Point(x: real, y: real)

  /** One candidate axis in polar line parameters. */
  datatype Vote = Vote(r: real, theta: real)

  /** The trigonometric functions and constant the program borrows from numpy. */
  datatype Trig = Trig(pi: real, arctan: real -> real, cos: real -> real, sin: real -> real)
  {
    /** π lies in a bracket around its true value, and the arctangent takes values in (-π/2, π/2). */
    ghost predicate Valid()
    {
      && 3.14159 < pi < 3.14160
      && forall v :: -pi / 2.0 < arctan(v) < pi / 2.0
    }
  }

  /**
   θij, the angle that the line through p and q makes with the x-axis
   (angle_with_x_axis). A vertical line gets exactly π/2; otherwise the
   arctangent of the slope, moved into [0, π) when it is negative.
   */
  function AngleWithXAxis(p: Point, q: Point, t: Trig): (theta: real)
    ensures p.x == q.x ==> theta == t.pi / 2.0
    ensures p.x != q.x ==>
      var slope := (p.y - q.y) / (p.x - q.x);
      theta == t.arctan(slope) || theta == t.arctan(slope) + t.pi
    ensures t.Valid() ==> 0.0 <= theta < t.pi
    ensures t.Valid() ==> (theta == t.pi / 2.0 <==> p.x == q.x)
  {
    var dx, dy := p.x - q.x, p.y - q.y;
    if dx == 0.0 then
      t.pi / 2.0
    else
      var angle := t.arctan(dy / dx);
      if angle < 0.0 then angle + t.pi else angle
  }

  /** The two points give the same angle in either order. */
  lemma AngleWithXAxisSymmetric(p: Point, q: Point, t: Trig)
    ensures AngleWithXAxis(p, q, t) == AngleWithXAxis(q, p, t)
  {
    if p.x != q.x {
      assert (p.y - q.y) / (p.x - q.x) == (q.y - p.y) / (q.x - p.x);
    }
  }

  /** The midpoint of p and q (midpoint): equally far from both, between them on each axis. */
  function Midpoint(p: Point, q: Point): (c: Point)
    ensures c.x - p.x == q.x - c.x && c.y - p.y == q.y - c.y
    ensures (p.x <= c.x <= q.x || q.x <= c.x <= p.x) && (p.y <= c.y <= q.y || q.y <= c.y <= p.y)
  {
    Point((p.x + q.x) / 2.0, (p.y + q.y) / 2.0)
  }

  /** The midpoint depends on the two points and not on their order. */
  lemma MidpointSymmetric(p: Point, q: Point)
    ensures Midpoint(p, q) == Midpoint(q, p)
  {
  }

  /**
   The vote of one pair (mirror_symmetry.py:121-126): θ is the angle of the
   line joining the points and r = xc·cos θ + yc·sin θ for their midpoint
   (xc, yc), so the midpoint lies on the line x·cos θ + y·sin θ = r.
   */
  function PairVote(p: Point, q: Point, t: Trig): (v: Vote)
    ensures v.theta == AngleWithXAxis(p, q, t)
    ensures t.Valid() ==> 0.0 <= v.theta < t.pi
  {
    var theta := AngleWithXAxis(p, q, t);
    var c := Midpoint(p, q);
    Vote(c.x * t.cos(theta) + c.y * t.sin(theta), theta)
  }

  /** Swapping the two points of a pair does not change its vote. */
  lemma PairVoteSymmetric(p: Point, q: Point, t: Trig)
    ensures PairVote(p, q, t) == PairVote(q, p, t)
  {
    AngleWithXAxisSymmetric(p, q, t);
    MidpointSymmetric(p, q);
  }

  /**
   A pair on the y-axis, such as (0, 0) and (0, 10), votes θ = π/2 exactly and
   r = yc·sin(π/2), with yc the height of its midpoint (5 for that pair).
   */
  lemma VerticalPairVote(p: Point, q: Point, t: Trig)
    requires p.x == 0.0 && q.x == 0.0
    ensures PairVote(p, q, t) == Vote((p.y + q.y) / 2.0 * t.sin(t.pi / 2.0), t.pi / 2.0)
  {
    var c := Midpoint(p, q);
    var cs, sn := t.cos(t.pi / 2.0), t.sin(t.pi / 2.0);
    assert c.x * cs + c.y * sn == c.y * sn;
  }
}
