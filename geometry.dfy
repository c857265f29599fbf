/** Vectors, the CPU-side geometry buffer and the value it holds.
    Coordinates and colour channels are exact reals; the original works in
    single-precision floats. */
module Geometry {

  /** A three-component vector, used both for positions and for RGB colours. */
  datatype Vec3 = Vec3(x: real, y: real, z: real)

  function Add(a: Vec3, b: Vec3): Vec3
  {
    Vec3(a.x + b.x, a.y + b.y, a.z + b.z)
  }

  function Sub(a: Vec3, b: Vec3): Vec3
  {
    Vec3(a.x - b.x, a.y - b.y, a.z - b.z)
  }

  function Scale(v: Vec3, k: real): Vec3
  {
    Vec3(v.x * k, v.y * k, v.z * k)
  }

  /** (a + b) / 2, component-wise. */
  function Midpoint(a: Vec3, b: Vec3): Vec3
  {
    Vec3((a.x + b.x) / 2.0, (a.y + b.y) / 2.0, (a.z + b.z) / 2.0)
  }

  /** The two points differ in the plane z = 0, so the segment between them
      has a direction that can be normalised. */
  predicate DistinctXY(a: Vec3, b: Vec3)
  {
    a.x != b.x || a.y != b.y
  }

  /** The contents of a geometry buffer: positions and the colours paired
      with them by index. */
  datatype Mesh = Mesh(verts: seq<Vec3>, cols: seq<Vec3>)
  {
    /** This buffer's contents followed by `other`'s. */
    function Then(other: Mesh): Mesh
    {
      Mesh(verts + other.verts, cols + other.cols)
    }
  }

  lemma ThenAssoc(a: Mesh, b: Mesh, c: Mesh)
    ensures a.Then(b).Then(c) == a.Then(b.Then(c))
  {
    assert a.verts + b.verts + c.verts == a.verts + (b.verts + c.verts);
    assert a.cols + b.cols + c.cols == a.cols + (b.cols + c.cols);
  }

  function Last<T>(s: seq<T>): T
    requires |s| > 0
  {
    s[|s| - 1]
  }

  /** Every vertex has z == 0. */
  ghost predicate Flat(vs: seq<Vec3>)
  {
    forall i :: 0 <= i < |vs| ==> vs[i].z == 0.0
  }

  /** vs[i] is the first vertex of a line-list segment (vs[i], vs[i+1]). */
  ghost predicate SegmentStart(vs: seq<Vec3>, i: int)
  {
    0 <= i < |vs| - 1 && i % 2 == 0
  }

  /** Every line segment (vs[2k], vs[2k+1]) has a non-zero direction in the plane. */
  ghost predicate SegmentsNonDegenerate(vs: seq<Vec3>)
  {
    forall i :: SegmentStart(vs, i) ==> DistinctXY(vs[i], vs[i + 1])
  }

  lemma NonDegenerateThen(a: seq<Vec3>, b: seq<Vec3>)
    requires SegmentsNonDegenerate(a) && SegmentsNonDegenerate(b) && |a| % 2 == 0
    ensures SegmentsNonDegenerate(a + b)
  {
    var s := a + b;
    forall i | SegmentStart(s, i)
      ensures DistinctXY(s[i], s[i + 1])
    {
      if i < |a| {
        assert SegmentStart(a, i);
        assert s[i] == a[i] && s[i + 1] == a[i + 1];
      } else {
        var j := i - |a|;
        assert SegmentStart(b, j);
        assert s[i] == b[j] && s[i + 1] == b[j + 1];
      }
    }
  }

  lemma Even(k: int, n: int)
    requires k == 2 * n
    ensures k % 2 == 0
  {
  }

  function Pow(b: nat, e: nat): (r: nat)
    ensures b > 0 ==> r > 0
  {
    if e == 0 then 1 else b * Pow(b, e - 1)
  }

  /** The CPU-side geometry container: two parallel vectors that the
      generators clear and then grow by appending. */
  class CpuGeometry {
    var verts: seq<Vec3>
    var cols: seq<Vec3>

    constructor ()
      ensures verts == [] && cols == []
    {
      verts := [];
      cols := [];
    }

    function Contents(): Mesh
      reads this
    {
      Mesh(verts, cols)
    }

    method Clear()
      modifies this
      ensures verts == [] && cols == []
    {
      verts := [];
      cols := [];
    }

    method PushVert(v: Vec3)
      modifies this
      ensures verts == old(verts) + [v] && cols == old(cols)
    {
      verts := verts + [v];
    }

    method PushCol(c: Vec3)
      modifies this
      ensures cols == old(cols) + [c] && verts == old(verts)
    {
      cols := cols + [c];
    }
  }
}
