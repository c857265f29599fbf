/** The Levy C curve generator: a line list built by folding every segment
    at a right angle around its midpoint, coloured by a red-to-green
    gradient along the curve. */
module Levy {
  import opened Geometry

  /** The root segment. */
  const Start := Vec3(-0.5, 0.0, 0.0)
  const End := Vec3(0.5, 0.0, 0.0)

  const Red := Vec3(1.0, 0.0, 0.0)
  const Green := Vec3(0.0, 1.0, 0.0)

  /** Linear interpolation a * (1 - t) + b * t, as glm::mix. */
  function Mix(a: Vec3, b: Vec3, t: real): Vec3
  {
    Add(Scale(a, 1.0 - t), Scale(b, t))
  }

  /** The colour of a curve point with parameter t: Mix(Red, Green, t)
      written out (see GradientIsMix). */
  function Gradient(t: real): Vec3
  {
    Vec3(1.0 - t, t, 0.0)
  }

  lemma GradientIsMix(t: real)
    ensures Gradient(t) == Mix(Red, Green, t)
  {
  }

  /** The new corner between p1 and p2: their midpoint, moved by half the
      segment's length along the segment turned by +90 degrees, that is by
      half of perp = (-dir.y, dir.x, 0) with dir = p2 - p1. With exact reals
      and z == 0, normalize(perp) * length(dir) equals perp. */
  function Fold(p1: Vec3, p2: Vec3): Vec3
  {
    Vec3((p1.x + p2.x) / 2.0 - (p2.y - p1.y) / 2.0,
         (p1.y + p2.y) / 2.0 + (p2.x - p1.x) / 2.0,
         (p1.z + p2.z) / 2.0)
  }

  /** What the recursive generator appends for the segment p1 -> p2 whose
      ends have curve parameters t1 and t2. */
  function Curve(p1: Vec3, p2: Vec3, depth: nat, t1: real, t2: real): Mesh
    decreases depth
  {
    if depth == 0 then
      Mesh([p1, p2], [Gradient(t1), Gradient(t2)])
    else
      var mid := Fold(p1, p2);
      var midT := (t1 + t2) / 2.0;
      Curve(p1, mid, depth - 1, t1, midT).Then(Curve(mid, p2, depth - 1, midT, t2))
  }

  /** The whole output of the generator for a given depth. */
  function LevyCurve(depth: nat): Mesh
  {
    Curve(Start, End, depth, 0.0, 1.0)
  }

  /** The recursive step: appends the curve over p1 -> p2 at `depth`. The
      exact displacement 0.5 * (-dir.y, dir.x, 0) equals the lambda's
      normalize(perp) * length(dir) * 0.5 when the segment lies in the plane
      z = 0 and has a non-zero direction there, which every call keeps. */
  method Generate(g: CpuGeometry, p1: Vec3, p2: Vec3, depth: nat, t1: real, t2: real)
    requires p1.z == 0.0 && p2.z == 0.0 && DistinctXY(p1, p2)
    modifies g
    ensures g.Contents() == old(g.Contents()).Then(Curve(p1, p2, depth, t1, t2))
    decreases depth
  {
    ghost var before := g.Contents();
    if depth == 0 {
      g.PushVert(p1);
      g.PushVert(p2);
      var colour1 := Mix(Red, Green, t1);
      var colour2 := Mix(Red, Green, t2);
      GradientIsMix(t1);
      GradientIsMix(t2);
      g.PushCol(colour1);
      g.PushCol(colour2);
      assert g.verts == before.verts + [p1, p2];
      assert g.cols == before.cols + [colour1, colour2];
    } else {
      var mid := Midpoint(p1, p2);
      var dir := Sub(p2, p1);
      var perp := Vec3(-dir.y, dir.x, 0.0);
      mid := Add(mid, Scale(perp, 0.5));
      assert mid == Fold(p1, p2);
      assert mid.z == 0.0 && DistinctXY(p1, mid) && DistinctXY(mid, p2) by {
        FoldDistinct(p1, p2);
      }
      var midT := (t1 + t2) / 2.0;
      ghost var a := Curve(p1, mid, depth - 1, t1, midT);
      ghost var b := Curve(mid, p2, depth - 1, midT, t2);
      Generate(g, p1, mid, depth - 1, t1, midT);
      assert g.Contents() == before.Then(a);
      Generate(g, mid, p2, depth - 1, midT, t2);
      assert g.Contents() == before.Then(a).Then(b);
      ThenAssoc(before, a, b);
    }
  }

  /** Clears the buffer, then fills it with the Levy curve of `depth`, with
      curve parameters 0 and 1 at the two ends. */
  method GenerateLevyCurve(g: CpuGeometry, depth: nat)
    modifies g
    ensures g.Contents() == LevyCurve(depth)
  {
    g.Clear();
    Generate(g, Start, End, depth, 0.0, 1.0);
  }

  // ---------------------------------------------------------------------
  // Size and ends

  lemma {:induction false} CurveSize(p1: Vec3, p2: Vec3, depth: nat, t1: real, t2: real)
    ensures |Curve(p1, p2, depth, t1, t2).verts| == 2 * Pow(2, depth)
    ensures |Curve(p1, p2, depth, t1, t2).cols| == 2 * Pow(2, depth)
    decreases depth
  {
    if depth > 0 {
      var mid := Fold(p1, p2);
      var midT := (t1 + t2) / 2.0;
      CurveSize(p1, mid, depth - 1, t1, midT);
      CurveSize(mid, p2, depth - 1, midT, t2);
    }
  }

  /** The curve is a whole number of segments. */
  lemma CurveEven(p1: Vec3, p2: Vec3, depth: nat, t1: real, t2: real)
    ensures |Curve(p1, p2, depth, t1, t2).verts| % 2 == 0
  {
    CurveSize(p1, p2, depth, t1, t2);
    Even(|Curve(p1, p2, depth, t1, t2).verts|, Pow(2, depth));
  }

  /** The curve starts at p1 coloured by t1 and ends at p2 coloured by t2. */
  lemma {:induction false} CurveEnds(p1: Vec3, p2: Vec3, depth: nat, t1: real, t2: real)
    ensures var m := Curve(p1, p2, depth, t1, t2);
      && |m.verts| > 0 && |m.cols| == |m.verts|
      && m.verts[0] == p1 && Last(m.verts) == p2
      && m.cols[0] == Gradient(t1) && Last(m.cols) == Gradient(t2)
    decreases depth
  {
    CurveSize(p1, p2, depth, t1, t2);
    if depth > 0 {
      var mid := Fold(p1, p2);
      var midT := (t1 + t2) / 2.0;
      CurveEnds(p1, mid, depth - 1, t1, midT);
      CurveEnds(mid, p2, depth - 1, midT, t2);
    }
  }

  /** 2 * 2^depth vertices; the first is (-0.5, 0, 0) in red, the last
      (0.5, 0, 0) in green, at every depth. */
  lemma LevyEnds(depth: nat)
    ensures var m := LevyCurve(depth);
      && |m.verts| == |m.cols| == 2 * Pow(2, depth)
      && m.verts[0] == Start && m.cols[0] == Red
      && Last(m.verts) == End && Last(m.cols) == Green
  {
    CurveSize(Start, End, depth, 0.0, 1.0);
    CurveEnds(Start, End, depth, 0.0, 1.0);
  }

  // ---------------------------------------------------------------------
  // Connectedness

  /** Read as a line list, consecutive segments meet: the end of segment k,
      vs[2k+1], is the start of segment k+1, vs[2k+2]. */
  ghost predicate Polyline(vs: seq<Vec3>)
  {
    forall i :: Joint(vs, i) ==> vs[i] == vs[i + 1]
  }

  /** vs[i] ends a segment that another segment follows. */
  ghost predicate Joint(vs: seq<Vec3>, i: int)
  {
    0 < i < |vs| - 1 && i % 2 == 1
  }

  lemma PolylineThen(a: seq<Vec3>, b: seq<Vec3>)
    requires Polyline(a) && Polyline(b)
    requires |a| % 2 == 0 && |a| > 0 && |b| > 0 && Last(a) == b[0]
    ensures Polyline(a + b)
  {
    var s := a + b;
    forall i | Joint(s, i)
      ensures s[i] == s[i + 1]
    {
      if i + 1 < |a| {
        assert Joint(a, i);
        assert s[i] == a[i] && s[i + 1] == a[i + 1];
      } else if i + 1 == |a| {
        assert s[i] == Last(a) && s[i + 1] == b[0];
      } else {
        var j := i - |a|;
        assert Joint(b, j);
        assert s[i] == b[j] && s[i + 1] == b[j + 1];
      }
    }
  }

  lemma {:induction false} CurveConnected(p1: Vec3, p2: Vec3, depth: nat, t1: real, t2: real)
    ensures Polyline(Curve(p1, p2, depth, t1, t2).verts)
    decreases depth
  {
    if depth > 0 {
      var mid := Fold(p1, p2);
      var midT := (t1 + t2) / 2.0;
      CurveConnected(p1, mid, depth - 1, t1, midT);
      CurveConnected(mid, p2, depth - 1, midT, t2);
      var a := Curve(p1, mid, depth - 1, t1, midT).verts;
      var b := Curve(mid, p2, depth - 1, midT, t2).verts;
      assert |a| % 2 == 0 by {
        CurveEven(p1, mid, depth - 1, t1, midT);
      }
      assert |a| > 0 && |b| > 0 && Last(a) == b[0] by {
        CurveEnds(p1, mid, depth - 1, t1, midT);
        CurveEnds(mid, p2, depth - 1, midT, t2);
      }
      PolylineThen(a, b);
      assert Curve(p1, p2, depth, t1, t2).verts == a + b;
    }
  }

  // ---------------------------------------------------------------------
  // Colours: curve parameters are the dyadic points of [t1, t2]

  /** The point of [t1, t2] at fraction k / n. */
  function Lerp(t1: real, t2: real, k: nat, n: nat): real
    requires n > 0
  {
    t1 + (t2 - t1) * (k as real) / (n as real)
  }

  /** The knot index of vertex i of a line list that walks a polyline:
      segment k runs from knot k to knot k + 1. */
  function Knot(i: nat): nat
  {
    (i + 1) / 2
  }

  lemma LerpLeft(t1: real, t2: real, k: nat, n: nat)
    requires n > 0
    ensures Lerp(t1, (t1 + t2) / 2.0, k, n) == Lerp(t1, t2, k, 2 * n)
  {
    var d := t2 - t1;
    var kr, nr := k as real, n as real;
    calc {
      Lerp(t1, (t1 + t2) / 2.0, k, n);
      t1 + (d / 2.0) * kr / nr;
      { assert (d / 2.0) * kr / nr == d * kr / (2.0 * nr); }
      t1 + d * kr / (2.0 * nr);
      Lerp(t1, t2, k, 2 * n);
    }
  }

  lemma LerpRight(t1: real, t2: real, k: nat, n: nat)
    requires n > 0
    ensures Lerp((t1 + t2) / 2.0, t2, k, n) == Lerp(t1, t2, k + n, 2 * n)
  {
    var d := t2 - t1;
    var kr, nr := k as real, n as real;
    calc {
      Lerp((t1 + t2) / 2.0, t2, k, n);
      t1 + d / 2.0 + (d / 2.0) * kr / nr;
      { assert d / 2.0 == d * nr / (2.0 * nr);
        assert (d / 2.0) * kr / nr == d * kr / (2.0 * nr); }
      t1 + d * nr / (2.0 * nr) + d * kr / (2.0 * nr);
      { assert d * nr / (2.0 * nr) + d * kr / (2.0 * nr) == d * (kr + nr) / (2.0 * nr); }
      t1 + d * (kr + nr) / (2.0 * nr);
      Lerp(t1, t2, k + n, 2 * n);
    }
  }

  /** Vertex i of the curve over [t1, t2] at `depth` carries the colour of
      curve parameter t1 + (t2 - t1) * Knot(i) / 2^depth: each recursive call
      splits its parameter interval at the midpoint (t1 + t2) / 2. */
  lemma {:induction false} CurveParameters(p1: Vec3, p2: Vec3, depth: nat, t1: real, t2: real)
    ensures var m := Curve(p1, p2, depth, t1, t2);
      forall i :: 0 <= i < |m.cols| ==> m.cols[i] == Gradient(Lerp(t1, t2, Knot(i), Pow(2, depth)))
    decreases depth
  {
    var m := Curve(p1, p2, depth, t1, t2);
    if depth == 0 {
      assert Lerp(t1, t2, 0, 1) == t1 && Lerp(t1, t2, 1, 1) == t2;
    } else {
      var mid := Fold(p1, p2);
      var midT := (t1 + t2) / 2.0;
      var a := Curve(p1, mid, depth - 1, t1, midT);
      var b := Curve(mid, p2, depth - 1, midT, t2);
      var n := Pow(2, depth - 1);
      CurveParameters(p1, mid, depth - 1, t1, midT);
      CurveParameters(mid, p2, depth - 1, midT, t2);
      CurveSize(p1, mid, depth - 1, t1, midT);
      forall i | 0 <= i < |m.cols|
        ensures m.cols[i] == Gradient(Lerp(t1, t2, Knot(i), Pow(2, depth)))
      {
        if i < |a.cols| {
          assert m.cols[i] == a.cols[i];
          LerpLeft(t1, t2, Knot(i), n);
        } else {
          var j := i - |a.cols|;
          assert m.cols[i] == b.cols[j];
          assert Knot(i) == Knot(j) + n;
          LerpRight(t1, t2, Knot(j), n);
        }
      }
    }
  }

  lemma LerpMonotone(t1: real, t2: real, k1: nat, k2: nat, n: nat)
    requires n > 0 && t1 <= t2 && k1 <= k2
    ensures Lerp(t1, t2, k1, n) <= Lerp(t1, t2, k2, n)
  {
    var d, nr := t2 - t1, n as real;
    assert d * (k2 as real) - d * (k1 as real) == d * ((k2 - k1) as real);
    assert d * ((k2 - k1) as real) >= 0.0;
    assert d * (k2 as real) / nr - d * (k1 as real) / nr == d * ((k2 - k1) as real) / nr;
  }

  /** Along the emission order the colours move monotonically from red to
      green: the green channel never decreases, the red channel never
      increases, and red + green == 1 with blue 0. */
  lemma LevyGradientMonotone(depth: nat)
    ensures var c := LevyCurve(depth).cols;
      forall i, j :: 0 <= i <= j < |c| ==> c[i].y <= c[j].y && c[j].x <= c[i].x
    ensures var c := LevyCurve(depth).cols;
      forall i :: 0 <= i < |c| ==> c[i].x + c[i].y == 1.0 && c[i].z == 0.0
  {
    var c := LevyCurve(depth).cols;
    var n := Pow(2, depth);
    CurveParameters(Start, End, depth, 0.0, 1.0);
    forall i, j | 0 <= i <= j < |c|
      ensures c[i].y <= c[j].y && c[j].x <= c[i].x
    {
      LerpMonotone(0.0, 1.0, Knot(i), Knot(j), n);
    }
  }

  // ---------------------------------------------------------------------
  // The curve stays in the plane z = 0 and never folds a segment to a point

  lemma {:induction false} CurveFlat(p1: Vec3, p2: Vec3, depth: nat, t1: real, t2: real)
    requires p1.z == 0.0 && p2.z == 0.0
    ensures Flat(Curve(p1, p2, depth, t1, t2).verts)
    decreases depth
  {
    if depth > 0 {
      var mid := Fold(p1, p2);
      var midT := (t1 + t2) / 2.0;
      CurveFlat(p1, mid, depth - 1, t1, midT);
      CurveFlat(mid, p2, depth - 1, midT, t2);
    }
  }

  lemma FoldDistinct(p1: Vec3, p2: Vec3)
    requires DistinctXY(p1, p2)
    ensures DistinctXY(p1, Fold(p1, p2)) && DistinctXY(Fold(p1, p2), p2)
  {
  }

  lemma {:induction false} CurveNonDegenerate(p1: Vec3, p2: Vec3, depth: nat, t1: real, t2: real)
    requires DistinctXY(p1, p2)
    ensures SegmentsNonDegenerate(Curve(p1, p2, depth, t1, t2).verts)
    decreases depth
  {
    if depth > 0 {
      var mid := Fold(p1, p2);
      var midT := (t1 + t2) / 2.0;
      FoldDistinct(p1, p2);
      CurveNonDegenerate(p1, mid, depth - 1, t1, midT);
      CurveNonDegenerate(mid, p2, depth - 1, midT, t2);
      CurveEven(p1, mid, depth - 1, t1, midT);
      NonDegenerateThen(Curve(p1, mid, depth - 1, t1, midT).verts, Curve(mid, p2, depth - 1, midT, t2).verts);
    }
  }

  /** Every vertex of the curve lies in the plane z = 0 (so the
      perpendicular (-dir.y, dir.x, 0) is as long as the segment), and every
      segment has a non-zero direction (so normalising it is defined). */
  lemma LevyWellFormed(depth: nat)
    ensures Flat(LevyCurve(depth).verts)
    ensures SegmentsNonDegenerate(LevyCurve(depth).verts)
    ensures Polyline(LevyCurve(depth).verts)
  {
    CurveFlat(Start, End, depth, 0.0, 1.0);
    CurveNonDegenerate(Start, End, depth, 0.0, 1.0);
    CurveConnected(Start, End, depth, 0.0, 1.0);
  }
}
