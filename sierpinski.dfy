/** The Sierpinski triangle generator: a triangle list built by recursive
    subdivision into the three corner triangles. */
module Sierpinski {
  import opened Geometry

  /** The root triangle. */
  const P1 := Vec3(-0.5, -0.5, 0.0)
  const P2 := Vec3(0.5, -0.5, 0.0)
  const P3 := Vec3(0.0, 0.5, 0.0)

  /** The colour shared by the three vertices of a triangle whose first
      vertex is `p1`: its x and y mapped from [-1, 1] to [0, 1], blue 0.5. */
  function TriangleColour(p1: Vec3): Vec3
  {
    Vec3((p1.x + 1.0) / 2.0, (p1.y + 1.0) / 2.0, 0.5)
  }

  /** What the recursive generator appends for triangle (p1, p2, p3). */
  function Triangles(p1: Vec3, p2: Vec3, p3: Vec3, depth: nat): Mesh
    decreases depth
  {
    if depth == 0 then
      var colour := TriangleColour(p1);
      Mesh([p1, p2, p3], [colour, colour, colour])
    else
      var mid1 := Midpoint(p1, p2);
      var mid2 := Midpoint(p2, p3);
      var mid3 := Midpoint(p1, p3);
      Triangles(p1, mid1, mid3, depth - 1)
        .Then(Triangles(mid1, p2, mid2, depth - 1))
        .Then(Triangles(mid3, mid2, p3, depth - 1))
  }

  /** The whole output of the generator for a given depth. */
  function Sierpinski(depth: nat): Mesh
  {
    Triangles(P1, P2, P3, depth)
  }

  /** The recursive step: appends the triangles of (p1, p2, p3) at `depth`. */
  method Generate(g: CpuGeometry, p1: Vec3, p2: Vec3, p3: Vec3, depth: nat)
    modifies g
    ensures g.Contents() == old(g.Contents()).Then(Triangles(p1, p2, p3, depth))
    decreases depth
  {
    ghost var before := g.Contents();
    if depth == 0 {
      g.PushVert(p1);
      g.PushVert(p2);
      g.PushVert(p3);
      var colour := TriangleColour(p1);
      g.PushCol(colour);
      g.PushCol(colour);
      g.PushCol(colour);
      assert g.verts == before.verts + [p1, p2, p3];
      assert g.cols == before.cols + [colour, colour, colour];
    } else {
      var mid1 := Midpoint(p1, p2);
      var mid2 := Midpoint(p2, p3);
      var mid3 := Midpoint(p1, p3);
      ghost var a := Triangles(p1, mid1, mid3, depth - 1);
      ghost var b := Triangles(mid1, p2, mid2, depth - 1);
      ghost var c := Triangles(mid3, mid2, p3, depth - 1);
      Generate(g, p1, mid1, mid3, depth - 1);
      assert g.Contents() == before.Then(a);
      Generate(g, mid1, p2, mid2, depth - 1);
      assert g.Contents() == before.Then(a).Then(b);
      Generate(g, mid3, mid2, p3, depth - 1);
      assert g.Contents() == before.Then(a).Then(b).Then(c);
      ThenAssoc(before, a.Then(b), c);
      ThenAssoc(before, a, b);
    }
  }

  /** Clears the buffer, then fills it with the Sierpinski triangle of `depth`.
      The new contents do not depend on the old ones. */
  method GenerateSierpinskiTriangle(g: CpuGeometry, depth: nat)
    modifies g
    ensures g.Contents() == Sierpinski(depth)
  {
    g.Clear();
    Generate(g, P1, P2, P3, depth);
  }

  // ---------------------------------------------------------------------
  // Size

  lemma {:induction false} TrianglesSize(p1: Vec3, p2: Vec3, p3: Vec3, depth: nat)
    ensures |Triangles(p1, p2, p3, depth).verts| == 3 * Pow(3, depth)
    ensures |Triangles(p1, p2, p3, depth).cols| == 3 * Pow(3, depth)
    decreases depth
  {
    if depth > 0 {
      var mid1 := Midpoint(p1, p2);
      var mid2 := Midpoint(p2, p3);
      var mid3 := Midpoint(p1, p3);
      TrianglesSize(p1, mid1, mid3, depth - 1);
      TrianglesSize(mid1, p2, mid2, depth - 1);
      TrianglesSize(mid3, mid2, p3, depth - 1);
    }
  }

  /** The output is a triangle list of exactly 3^depth triangles, with one
      colour per vertex. */
  lemma SierpinskiSize(depth: nat)
    ensures |Sierpinski(depth).verts| == |Sierpinski(depth).cols| == 3 * Pow(3, depth)
  {
    TrianglesSize(P1, P2, P3, depth);
  }

  /** At depth 0 the output is the root triangle, in order, in one colour. */
  lemma SierpinskiBase()
    ensures Sierpinski(0).verts == [Vec3(-0.5, -0.5, 0.0), Vec3(0.5, -0.5, 0.0), Vec3(0.0, 0.5, 0.0)]
    ensures Sierpinski(0).cols == [Vec3(0.25, 0.25, 0.5), Vec3(0.25, 0.25, 0.5), Vec3(0.25, 0.25, 0.5)]
  {
  }

  // ---------------------------------------------------------------------
  // Colours

  /** Every vertex carries the colour computed from the first vertex of the
      triangle it belongs to (triangles are vertices 3k, 3k+1, 3k+2). */
  ghost predicate SharedColours(m: Mesh)
  {
    && |m.verts| == |m.cols|
    && |m.verts| % 3 == 0
    && forall i :: 0 <= i < |m.cols| ==> m.cols[i] == TriangleColour(m.verts[i - i % 3])
  }

  lemma SharedColoursThen(a: Mesh, b: Mesh)
    requires SharedColours(a) && SharedColours(b)
    ensures SharedColours(a.Then(b))
  {
    var m := a.Then(b);
    forall i | 0 <= i < |m.cols|
      ensures m.cols[i] == TriangleColour(m.verts[i - i % 3])
    {
      if i >= |a.cols| {
        var j := i - |a.cols|;
        assert |a.cols| == 3 * (|a.cols| / 3);
        assert j % 3 == i % 3;
        assert m.cols[i] == b.cols[j];
        assert m.verts[i - i % 3] == b.verts[j - j % 3];
      } else {
        assert m.cols[i] == a.cols[i];
        assert m.verts[i - i % 3] == a.verts[i - i % 3];
      }
    }
  }

  lemma {:induction false} TrianglesColours(p1: Vec3, p2: Vec3, p3: Vec3, depth: nat)
    ensures SharedColours(Triangles(p1, p2, p3, depth))
    decreases depth
  {
    if depth == 0 {
      var m := Triangles(p1, p2, p3, depth);
      assert m.verts[0] == p1;
      forall i | 0 <= i < |m.cols|
        ensures m.cols[i] == TriangleColour(m.verts[i - i % 3])
      {
        assert i - i % 3 == 0;
      }
    } else {
      var mid1 := Midpoint(p1, p2);
      var mid2 := Midpoint(p2, p3);
      var mid3 := Midpoint(p1, p3);
      TrianglesColours(p1, mid1, mid3, depth - 1);
      TrianglesColours(mid1, p2, mid2, depth - 1);
      TrianglesColours(mid3, mid2, p3, depth - 1);
      SharedColoursThen(Triangles(p1, mid1, mid3, depth - 1), Triangles(mid1, p2, mid2, depth - 1));
      SharedColoursThen(Triangles(p1, mid1, mid3, depth - 1).Then(Triangles(mid1, p2, mid2, depth - 1)),
                        Triangles(mid3, mid2, p3, depth - 1));
    }
  }

  /** The three vertices of each emitted triangle share one colour,
      ((p1.x + 1) / 2, (p1.y + 1) / 2, 0.5) of the triangle's first vertex p1,
      so every blue channel is 0.5. */
  lemma SierpinskiColours(depth: nat)
    ensures SharedColours(Sierpinski(depth))
    ensures forall i :: 0 <= i < |Sierpinski(depth).cols| ==> Sierpinski(depth).cols[i].z == 0.5
    ensures forall i :: 0 <= i < |Sierpinski(depth).cols| && i % 3 != 0 ==>
              Sierpinski(depth).cols[i] == Sierpinski(depth).cols[i - 1]
  {
    TrianglesColours(P1, P2, P3, depth);
    var m := Sierpinski(depth);
    forall i | 0 <= i < |m.cols| && i % 3 != 0
      ensures m.cols[i] == m.cols[i - 1]
    {
      assert (i - 1) - (i - 1) % 3 == i - i % 3;
    }
  }

  // ---------------------------------------------------------------------
  // Geometry: the output stays inside every half-plane that holds the
  // corners, and the central triangle is never filled

  /** The closed half-plane a * x + b * y <= c. */
  datatype HalfPlane = HalfPlane(a: real, b: real, c: real)

  predicate Inside(h: HalfPlane, v: Vec3)
  {
    h.a * v.x + h.b * v.y <= h.c
  }

  lemma MidpointInside(h: HalfPlane, p: Vec3, q: Vec3)
    requires Inside(h, p) && Inside(h, q)
    ensures Inside(h, Midpoint(p, q))
  {
    var m := Midpoint(p, q);
    assert h.a * m.x == (h.a * p.x + h.a * q.x) / 2.0;
    assert h.b * m.y == (h.b * p.y + h.b * q.y) / 2.0;
  }

  lemma {:induction false} TrianglesInside(h: HalfPlane, p1: Vec3, p2: Vec3, p3: Vec3, depth: nat)
    requires Inside(h, p1) && Inside(h, p2) && Inside(h, p3)
    ensures forall v :: v in Triangles(p1, p2, p3, depth).verts ==> Inside(h, v)
    decreases depth
  {
    if depth > 0 {
      var mid1 := Midpoint(p1, p2);
      var mid2 := Midpoint(p2, p3);
      var mid3 := Midpoint(p1, p3);
      assert Inside(h, mid1) && Inside(h, mid2) && Inside(h, mid3) by {
        MidpointInside(h, p1, p2);
        MidpointInside(h, p2, p3);
        MidpointInside(h, p1, p3);
      }
      var a := Triangles(p1, mid1, mid3, depth - 1).verts;
      var b := Triangles(mid1, p2, mid2, depth - 1).verts;
      var c := Triangles(mid3, mid2, p3, depth - 1).verts;
      TrianglesInside(h, p1, mid1, mid3, depth - 1);
      TrianglesInside(h, mid1, p2, mid2, depth - 1);
      TrianglesInside(h, mid3, mid2, p3, depth - 1);
      InsideThen(h, a, b, c);
      assert Triangles(p1, p2, p3, depth).verts == a + b + c;
    }
  }

  lemma InsideThen(h: HalfPlane, a: seq<Vec3>, b: seq<Vec3>, c: seq<Vec3>)
    requires forall v :: v in a ==> Inside(h, v)
    requires forall v :: v in b ==> Inside(h, v)
    requires forall v :: v in c ==> Inside(h, v)
    ensures forall v :: v in a + b + c ==> Inside(h, v)
  {
  }

  /** The three edges of the root triangle, as half-planes holding it. */
  const Bottom := HalfPlane(0.0, -1.0, 0.5)
  const LeftEdge := HalfPlane(-2.0, 1.0, 0.5)
  const RightEdge := HalfPlane(2.0, 1.0, 0.5)

  /** Every emitted vertex lies in the closed root triangle. */
  lemma SierpinskiWithinRoot(depth: nat)
    ensures forall v :: v in Sierpinski(depth).verts ==>
              Inside(Bottom, v) && Inside(LeftEdge, v) && Inside(RightEdge, v)
  {
    TrianglesInside(Bottom, P1, P2, P3, depth);
    TrianglesInside(LeftEdge, P1, P2, P3, depth);
    TrianglesInside(RightEdge, P1, P2, P3, depth);
  }

  /** The open central triangle of the root, spanned by its edge midpoints
      (0, -0.5), (0.25, 0) and (-0.25, 0). */
  predicate InCentralHole(v: Vec3)
  {
    v.y < 0.0 && 2.0 * v.x + v.y > -0.5 && -2.0 * v.x + v.y > -0.5
  }

  /** The centroid of the root triangle. */
  const Centroid := Vec3(0.0, -1.0 / 6.0, 0.0)

  /** Half-planes holding the three corner triangles of the root and
      excluding the central one. */
  const LowerLeft := HalfPlane(2.0, 1.0, -0.5)
  const LowerRight := HalfPlane(-2.0, 1.0, -0.5)
  const Upper := HalfPlane(0.0, -1.0, 0.0)

  lemma CornersMissHole(a: seq<Vec3>, b: seq<Vec3>, c: seq<Vec3>)
    requires forall v :: v in a ==> Inside(LowerLeft, v)
    requires forall v :: v in b ==> Inside(LowerRight, v)
    requires forall v :: v in c ==> Inside(Upper, v)
    ensures forall v :: v in a + b + c ==> !InCentralHole(v)
  {
  }

  /** From depth 1 on, the generator recurses only into the three corner
      triangles: no emitted vertex lies inside the central triangle; in
      particular the root's centroid is never emitted. */
  lemma SierpinskiHole(depth: nat)
    requires depth >= 1
    ensures forall v :: v in Sierpinski(depth).verts ==> !InCentralHole(v)
    ensures Centroid !in Sierpinski(depth).verts
  {
    var mid1, mid2, mid3 := Vec3(0.0, -0.5, 0.0), Vec3(0.25, 0.0, 0.0), Vec3(-0.25, 0.0, 0.0);
    var a := Triangles(P1, mid1, mid3, depth - 1);
    var b := Triangles(mid1, P2, mid2, depth - 1);
    var c := Triangles(mid3, mid2, P3, depth - 1);
    assert Sierpinski(depth).verts == a.verts + b.verts + c.verts by {
      assert mid1 == Midpoint(P1, P2) && mid2 == Midpoint(P2, P3) && mid3 == Midpoint(P1, P3);
    }
    TrianglesInside(LowerLeft, P1, mid1, mid3, depth - 1);
    TrianglesInside(LowerRight, mid1, P2, mid2, depth - 1);
    TrianglesInside(Upper, mid3, mid2, P3, depth - 1);
    CornersMissHole(a.verts, b.verts, c.verts);
    assert InCentralHole(Centroid);
  }

  /** Every vertex lies in the plane z = 0 when the three corners do. */
  lemma {:induction false} TrianglesFlat(p1: Vec3, p2: Vec3, p3: Vec3, depth: nat)
    requires p1.z == 0.0 && p2.z == 0.0 && p3.z == 0.0
    ensures forall v :: v in Triangles(p1, p2, p3, depth).verts ==> v.z == 0.0
    decreases depth
  {
    if depth > 0 {
      var mid1 := Midpoint(p1, p2);
      var mid2 := Midpoint(p2, p3);
      var mid3 := Midpoint(p1, p3);
      var a := Triangles(p1, mid1, mid3, depth - 1).verts;
      var b := Triangles(mid1, p2, mid2, depth - 1).verts;
      var c := Triangles(mid3, mid2, p3, depth - 1).verts;
      TrianglesFlat(p1, mid1, mid3, depth - 1);
      TrianglesFlat(mid1, p2, mid2, depth - 1);
      TrianglesFlat(mid3, mid2, p3, depth - 1);
      FlatThen(a, b, c);
      assert Triangles(p1, p2, p3, depth).verts == a + b + c;
    }
  }

  lemma FlatThen(a: seq<Vec3>, b: seq<Vec3>, c: seq<Vec3>)
    requires forall v :: v in a ==> v.z == 0.0
    requires forall v :: v in b ==> v.z == 0.0
    requires forall v :: v in c ==> v.z == 0.0
    ensures forall v :: v in a + b + c ==> v.z == 0.0
  {
  }

  /** The midpoints of the root's edges: bottom, right and left. */
  const BottomMid := Vec3(0.0, -0.5, 0.0)
  const RightMid := Vec3(0.25, 0.0, 0.0)
  const LeftMid := Vec3(-0.25, 0.0, 0.0)

  /** From depth 1 on, the vertices of the three corner sub-outputs meet
      only at the shared edge midpoints: the lower-left and lower-right
      corners share only the bottom midpoint, the lower-right and upper
      corners only the right one, the lower-left and upper only the left one. */
  lemma CornersDisjoint(depth: nat)
    requires depth >= 1
    ensures var a := Triangles(P1, BottomMid, LeftMid, depth - 1).verts;
      var b := Triangles(BottomMid, P2, RightMid, depth - 1).verts;
      var c := Triangles(LeftMid, RightMid, P3, depth - 1).verts;
      && (forall v :: v in a && v in b ==> v == BottomMid)
      && (forall v :: v in b && v in c ==> v == RightMid)
      && (forall v :: v in a && v in c ==> v == LeftMid)
  {
    var a := Triangles(P1, BottomMid, LeftMid, depth - 1).verts;
    var b := Triangles(BottomMid, P2, RightMid, depth - 1).verts;
    var c := Triangles(LeftMid, RightMid, P3, depth - 1).verts;
    assert Sierpinski(depth).verts == a + b + c by {
      assert BottomMid == Midpoint(P1, P2) && RightMid == Midpoint(P2, P3) && LeftMid == Midpoint(P1, P3);
    }
    SierpinskiWithinRoot(depth);
    TrianglesFlat(P1, P2, P3, depth);
    TrianglesInside(LowerLeft, P1, BottomMid, LeftMid, depth - 1);
    TrianglesInside(LowerRight, BottomMid, P2, RightMid, depth - 1);
    TrianglesInside(Upper, LeftMid, RightMid, P3, depth - 1);
    forall v | v in a && v in b
      ensures v == BottomMid
    {
      assert v in a + b + c;
    }
    forall v | v in b && v in c
      ensures v == RightMid
    {
      assert v in a + b + c;
    }
    forall v | v in a && v in c
      ensures v == LeftMid
    {
      assert v in a + b + c;
    }
  }
}
