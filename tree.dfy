/** The fractal tree generator: a line list of branches, each emitted before
    its three half-length children (straight on from its end, and turned by
    +/-25.7 degrees from its midpoint). */
module FractalTree {
  import opened Geometry

  /** The trunk. */
  const TrunkStart := Vec3(0.0, -0.8, 0.0)
  const TrunkEnd := Vec3(0.0, -0.3, 0.0)

  const Brown := Vec3(0.4, 0.3, 0.2)
  const ForestGreen := Vec3(0.13, 0.55, 0.13)

  /** Branches up to level 3 are brown, deeper ones green: a hard cutoff. */
  function BranchColour(level: int): Vec3
  {
    if level <= 3 then Brown else ForestGreen
  }

  // The turns below use cos(25.7 degrees) = 0.9010770213 and
  // sin(25.7 degrees) = 0.4336590846, to ten decimals, written out as
  // literals. No property below depends on their values beyond their not
  // both being zero. With these decimals cos^2 + sin^2 is 1 - 2.9e-11, so the
  // rotated children are not exactly half as long as their parent; no lemma
  // here states their length.

  /** The direction d turned by +25.7 degrees in the plane z = 0. */
  function TurnLeft(d: Vec3): Vec3
  {
    Vec3(d.x * 0.9010770213 - d.y * 0.4336590846, d.x * 0.4336590846 + d.y * 0.9010770213, 0.0)
  }

  /** The direction d turned by -25.7 degrees in the plane z = 0. */
  function TurnRight(d: Vec3): Vec3
  {
    Vec3(d.x * 0.9010770213 + d.y * 0.4336590846, -d.x * 0.4336590846 + d.y * 0.9010770213, 0.0)
  }

  /** End of the straight child of start -> end: end + dir / 2. Here
      unitDir * (length * 0.5) equals dir * 0.5 exactly. */
  function StraightEnd(start: Vec3, end: Vec3): Vec3
  {
    Vec3(end.x + (end.x - start.x) / 2.0, end.y + (end.y - start.y) / 2.0, end.z + (end.z - start.z) / 2.0)
  }

  /** End of the child turned by +25.7 degrees: midpoint + TurnLeft(dir) / 2. */
  function LeftEnd(start: Vec3, end: Vec3): Vec3
  {
    var dx, dy := end.x - start.x, end.y - start.y;
    Vec3((start.x + end.x) / 2.0 + (dx * 0.9010770213 - dy * 0.4336590846) / 2.0,
         (start.y + end.y) / 2.0 + (dx * 0.4336590846 + dy * 0.9010770213) / 2.0,
         (start.z + end.z) / 2.0)
  }

  /** End of the child turned by -25.7 degrees: midpoint + TurnRight(dir) / 2. */
  function RightEnd(start: Vec3, end: Vec3): Vec3
  {
    var dx, dy := end.x - start.x, end.y - start.y;
    Vec3((start.x + end.x) / 2.0 + (dx * 0.9010770213 + dy * 0.4336590846) / 2.0,
         (start.y + end.y) / 2.0 + (-dx * 0.4336590846 + dy * 0.9010770213) / 2.0,
         (start.z + end.z) / 2.0)
  }

  /** What the recursive generator appends for the branch start -> end at
      level `level` of a tree of depth `depth`. */
  function Branches(start: Vec3, end: Vec3, level: nat, depth: int): Mesh
    decreases depth - level
  {
    var colour := BranchColour(level);
    var segment := Mesh([start, end], [colour, colour]);
    if level < depth then
      var mid := Midpoint(start, end);
      segment
        .Then(Branches(end, StraightEnd(start, end), level + 1, depth))
        .Then(Branches(mid, LeftEnd(start, end), level + 1, depth))
        .Then(Branches(mid, RightEnd(start, end), level + 1, depth))
    else
      segment
  }

  /** The level of each emitted branch, in emission order. */
  function Levels(level: nat, depth: int): seq<nat>
    decreases depth - level
  {
    if level < depth then
      var children := Levels(level + 1, depth);
      [level] + children + children + children
    else
      [level]
  }

  /** The whole output of the generator for a given depth. */
  function Tree(depth: int): Mesh
  {
    Branches(TrunkStart, TrunkEnd, 0, depth)
  }

  /** The recursive step: appends the branch start -> end and, below `depth`,
      its three subtrees. Writing unitDir * (length * 0.5) as dir * 0.5 is
      exact only for a branch of non-zero length, which every call keeps. */
  method Generate(g: CpuGeometry, start: Vec3, end: Vec3, currentDepth: nat, depth: int)
    requires DistinctXY(start, end)
    modifies g
    ensures g.Contents() == old(g.Contents()).Then(Branches(start, end, currentDepth, depth))
    decreases depth - currentDepth
  {
    ghost var before := g.Contents();
    var colour := if currentDepth <= 3 then Brown else ForestGreen;
    g.PushVert(start);
    g.PushVert(end);
    g.PushCol(colour);
    g.PushCol(colour);
    ghost var segment := Mesh([start, end], [colour, colour]);
    assert g.Contents() == before.Then(segment);
    if currentDepth < depth {
      var dir := Sub(end, start);
      var branch1End := Add(end, Scale(dir, 0.5));
      var midpoint := Scale(Add(start, end), 0.5);
      var branch2Dir := Scale(TurnLeft(dir), 0.5);
      var branch3Dir := Scale(TurnRight(dir), 0.5);
      assert branch1End == StraightEnd(start, end) && midpoint == Midpoint(start, end)
          && Add(midpoint, branch2Dir) == LeftEnd(start, end) && Add(midpoint, branch3Dir) == RightEnd(start, end) by {
        ChildEnds(start, end);
      }
      assert DistinctXY(end, StraightEnd(start, end)) && DistinctXY(Midpoint(start, end), LeftEnd(start, end))
          && DistinctXY(Midpoint(start, end), RightEnd(start, end)) by {
        ChildrenDistinct(start, end);
      }
      ghost var a := Branches(end, StraightEnd(start, end), currentDepth + 1, depth);
      ghost var b := Branches(Midpoint(start, end), LeftEnd(start, end), currentDepth + 1, depth);
      ghost var c := Branches(Midpoint(start, end), RightEnd(start, end), currentDepth + 1, depth);
      assert Branches(start, end, currentDepth, depth) == segment.Then(a).Then(b).Then(c);
      Generate(g, end, branch1End, currentDepth + 1, depth);
      assert g.Contents() == before.Then(segment).Then(a);
      Generate(g, midpoint, Add(midpoint, branch2Dir), currentDepth + 1, depth);
      assert g.Contents() == before.Then(segment).Then(a).Then(b);
      Generate(g, midpoint, Add(midpoint, branch3Dir), currentDepth + 1, depth);
      assert g.Contents() == before.Then(segment).Then(a).Then(b).Then(c);
      ThenAssoc(before, segment.Then(a).Then(b), c);
      ThenAssoc(before, segment.Then(a), b);
      ThenAssoc(before, segment, a);
    }
  }

  /** The generator's vector arithmetic yields the child branches' ends. */
  lemma ChildEnds(start: Vec3, end: Vec3)
    ensures Add(end, Scale(Sub(end, start), 0.5)) == StraightEnd(start, end)
    ensures Scale(Add(start, end), 0.5) == Midpoint(start, end)
    ensures Add(Scale(Add(start, end), 0.5), Scale(TurnLeft(Sub(end, start)), 0.5)) == LeftEnd(start, end)
    ensures Add(Scale(Add(start, end), 0.5), Scale(TurnRight(Sub(end, start)), 0.5)) == RightEnd(start, end)
  {
  }

  /** Clears the buffer, then fills it with the tree of `depth`, starting
      from the trunk at level 0. */
  method GenerateTree(g: CpuGeometry, depth: int)
    modifies g
    ensures g.Contents() == Tree(depth)
  {
    g.Clear();
    Generate(g, TrunkStart, TrunkEnd, 0, depth);
  }

  // ---------------------------------------------------------------------
  // Size and levels

  /** The number of levels below `level`. */
  function Height(level: nat, depth: int): nat
  {
    if level < depth then depth - level else 0
  }

  /** (3^(h+1) - 1) / 2 branches for a subtree of height h. */
  lemma {:induction false} LevelsSize(level: nat, depth: int)
    ensures 2 * |Levels(level, depth)| == Pow(3, Height(level, depth) + 1) - 1
    decreases depth - level
  {
    if level < depth {
      LevelsSize(level + 1, depth);
      var h := Height(level + 1, depth);
      assert Height(level, depth) == h + 1;
      assert Pow(3, h + 2) == 3 * Pow(3, h + 1);
    }
  }

  /** Two vertices and two colours per branch. */
  lemma {:induction false} BranchesSize(start: Vec3, end: Vec3, level: nat, depth: int)
    ensures |Branches(start, end, level, depth).verts| == 2 * |Levels(level, depth)|
    ensures |Branches(start, end, level, depth).cols| == 2 * |Levels(level, depth)|
    decreases depth - level
  {
    if level < depth {
      var mid := Midpoint(start, end);
      BranchesSize(end, StraightEnd(start, end), level + 1, depth);
      BranchesSize(mid, LeftEnd(start, end), level + 1, depth);
      BranchesSize(mid, RightEnd(start, end), level + 1, depth);
    }
  }

  /** Exactly 3^(k - level) branches sit at each level k from `level` down to
      `depth`, and none anywhere else: the recursion branches three ways and
      stops exactly when the level reaches `depth`. */
  lemma {:induction false} LevelCounts(level: nat, depth: int)
    ensures forall k :: multiset(Levels(level, depth))[k] ==
              if level <= k <= level + Height(level, depth) then Pow(3, k - level) else 0
    decreases depth - level
  {
    if level < depth {
      LevelCounts(level + 1, depth);
      var children := Levels(level + 1, depth);
      var m := multiset(children);
      assert multiset(Levels(level, depth)) == multiset([level]) + m + m + m;
      assert Height(level, depth) == Height(level + 1, depth) + 1;
      forall k
        ensures multiset(Levels(level, depth))[k] ==
                if level <= k <= level + Height(level, depth) then Pow(3, k - level) else 0
      {
        assert multiset(Levels(level, depth))[k] == (if k == level then 1 else 0) + 3 * m[k];
        var h := Height(level + 1, depth);
        assert m[k] == if level + 1 <= k <= level + 1 + h then Pow(3, k - (level + 1)) else 0;
        if k == level {
          assert m[k] == 0;
        } else if level < k <= level + 1 + h {
          assert Pow(3, k - level) == 3 * Pow(3, k - (level + 1));
        } else {
          assert m[k] == 0;
        }
      }
    }
  }

  /** Two copies of the colour of each level, in order: the colours of a
      line list whose branches have levels `ls`. */
  function ColoursOf(ls: seq<nat>): seq<Vec3>
  {
    if ls == [] then [] else [BranchColour(ls[0]), BranchColour(ls[0])] + ColoursOf(ls[1..])
  }

  lemma {:induction false} ColoursOfThen(a: seq<nat>, b: seq<nat>)
    ensures ColoursOf(a + b) == ColoursOf(a) + ColoursOf(b)
    decreases |a|
  {
    if a != [] {
      assert (a + b)[1..] == a[1..] + b;
      ColoursOfThen(a[1..], b);
    } else {
      assert a + b == b;
    }
  }

  lemma {:induction false} ColoursOfAt(ls: seq<nat>)
    ensures |ColoursOf(ls)| == 2 * |ls|
    ensures forall i :: 0 <= i < |ColoursOf(ls)| ==> ColoursOf(ls)[i] == BranchColour(ls[i / 2])
    decreases |ls|
  {
    if ls != [] {
      ColoursOfAt(ls[1..]);
      var c := ColoursOf(ls);
      var rest := ColoursOf(ls[1..]);
      forall i | 2 <= i < |c|
        ensures c[i] == BranchColour(ls[i / 2])
      {
        assert c[i] == rest[i - 2];
        assert (i - 2) / 2 == i / 2 - 1;
      }
    }
  }

  /** The colours of a subtree depend only on the levels of its branches. */
  lemma {:induction false} BranchesColours(start: Vec3, end: Vec3, level: nat, depth: int)
    ensures Branches(start, end, level, depth).cols == ColoursOf(Levels(level, depth))
    decreases depth - level
  {
    if level < depth {
      var mid := Midpoint(start, end);
      var children := Levels(level + 1, depth);
      BranchesColours(end, StraightEnd(start, end), level + 1, depth);
      BranchesColours(mid, LeftEnd(start, end), level + 1, depth);
      BranchesColours(mid, RightEnd(start, end), level + 1, depth);
      ColoursOfThen([level] + children + children, children);
      ColoursOfThen([level] + children, children);
      ColoursOfThen([level], children);
    }
  }

  // ---------------------------------------------------------------------
  // Shape

  lemma BranchesStart(start: Vec3, end: Vec3, level: nat, depth: int)
    ensures var m := Branches(start, end, level, depth);
      |m.verts| >= 2 && m.verts[0] == start && m.verts[1] == end &&
      |m.cols| >= 2 && m.cols[0] == m.cols[1] == BranchColour(level)
  {
  }

  /** The branch starting at vs[i] grows from the earlier branch
      vs[j] -> vs[j + 1], at that branch's end or at its midpoint. */
  ghost predicate GrowsFrom(vs: seq<Vec3>, i: int, j: int)
  {
    && 0 <= j < i - 1 && i < |vs| && j % 2 == 0
    && (vs[i] == vs[j + 1] || vs[i] == Midpoint(vs[j], vs[j + 1]))
  }

  /** vs[i] starts a branch other than the first. */
  ghost predicate LaterBranch(vs: seq<Vec3>, i: int)
  {
    2 <= i < |vs| && i % 2 == 0
  }

  /** Every branch but the first grows from an earlier branch. */
  ghost predicate Attached(vs: seq<Vec3>)
  {
    forall i :: LaterBranch(vs, i) ==> exists j :: GrowsFrom(vs, i, j)
  }

  lemma GrowsFromLeft(p: seq<Vec3>, x: seq<Vec3>, i: int, j: int)
    requires GrowsFrom(p, i, j)
    ensures GrowsFrom(p + x, i, j)
  {
    var s := p + x;
    assert s[i] == p[i] && s[j] == p[j] && s[j + 1] == p[j + 1];
  }

  lemma GrowsFromRight(p: seq<Vec3>, x: seq<Vec3>, i: int, j: int)
    requires GrowsFrom(x, i, j) && |p| % 2 == 0
    ensures GrowsFrom(p + x, i + |p|, j + |p|)
  {
    var s := p + x;
    assert s[i + |p|] == x[i] && s[j + |p|] == x[j] && s[j + 1 + |p|] == x[j + 1];
  }

  lemma AttachedThen(p: seq<Vec3>, x: seq<Vec3>)
    requires Attached(p) && Attached(x)
    requires |p| >= 2 && |p| % 2 == 0 && |x| >= 2
    requires x[0] == p[1] || x[0] == Midpoint(p[0], p[1])
    ensures Attached(p + x)
  {
    var s := p + x;
    forall i | LaterBranch(s, i)
      ensures exists j :: GrowsFrom(s, i, j)
    {
      if i < |p| {
        assert LaterBranch(p, i);
        var j :| GrowsFrom(p, i, j);
        GrowsFromLeft(p, x, i, j);
      } else if i == |p| {
        assert s[i] == x[0] && s[0] == p[0] && s[1] == p[1];
        assert GrowsFrom(s, i, 0);
      } else {
        var i' := i - |p|;
        assert LaterBranch(x, i');
        var j' :| GrowsFrom(x, i', j');
        GrowsFromRight(p, x, i', j');
      }
    }
  }

  /** A branch followed by three attached subtrees, the first growing from
      its end and the other two from its midpoint, is attached. */
  lemma AttachedChildren(start: Vec3, end: Vec3, a: seq<Vec3>, b: seq<Vec3>, c: seq<Vec3>)
    requires Attached(a) && Attached(b) && Attached(c)
    requires |a| >= 2 && |a| % 2 == 0 && |b| >= 2 && |b| % 2 == 0 && |c| >= 2
    requires a[0] == end && b[0] == Midpoint(start, end) && c[0] == Midpoint(start, end)
    ensures Attached([start, end] + a + b + c)
  {
    var seg := [start, end];
    assert Attached(seg);
    AttachedThen(seg, a);
    var sa := seg + a;
    assert sa[0] == start && sa[1] == end;
    AttachedPrefix(sa, b, start, end);
    var sab := sa + b;
    assert sab[0] == sa[0] && sab[1] == sa[1];
    assert Attached(sab);
    assert |sab| == 2 + |a| + |b|;
    assert |sab| % 2 == 0;
    AttachedPrefix(sab, c, start, end);
  }

  /** Step of AttachedChildren: one more subtree growing from the first branch. */
  lemma AttachedPrefix(p: seq<Vec3>, x: seq<Vec3>, start: Vec3, end: Vec3)
    requires Attached(p) && Attached(x)
    requires |p| >= 2 && |p| % 2 == 0 && |x| >= 2 && p[0] == start && p[1] == end
    requires x[0] == Midpoint(start, end)
    ensures Attached(p + x)
  {
    AttachedThen(p, x);
  }

  /** The generator emits whole segments. */
  lemma BranchesEven(start: Vec3, end: Vec3, level: nat, depth: int)
    ensures |Branches(start, end, level, depth).verts| % 2 == 0
  {
    BranchesSize(start, end, level, depth);
    Even(|Branches(start, end, level, depth).verts|, |Levels(level, depth)|);
  }


  lemma {:induction false} BranchesAttached(start: Vec3, end: Vec3, level: nat, depth: int)
    ensures Attached(Branches(start, end, level, depth).verts)
    decreases depth - level
  {
    if level < depth {
      var mid := Midpoint(start, end);
      var a := Branches(end, StraightEnd(start, end), level + 1, depth).verts;
      var b := Branches(mid, LeftEnd(start, end), level + 1, depth).verts;
      var c := Branches(mid, RightEnd(start, end), level + 1, depth).verts;
      BranchesAttached(end, StraightEnd(start, end), level + 1, depth);
      BranchesAttached(mid, LeftEnd(start, end), level + 1, depth);
      BranchesAttached(mid, RightEnd(start, end), level + 1, depth);
      BranchesStart(end, StraightEnd(start, end), level + 1, depth);
      BranchesStart(mid, LeftEnd(start, end), level + 1, depth);
      BranchesStart(mid, RightEnd(start, end), level + 1, depth);
      BranchesEven(end, StraightEnd(start, end), level + 1, depth);
      BranchesEven(mid, LeftEnd(start, end), level + 1, depth);
      AttachedChildren(start, end, a, b, c);
      assert Branches(start, end, level, depth).verts == [start, end] + a + b + c;
    }
  }

  lemma {:induction false} BranchesFlat(start: Vec3, end: Vec3, level: nat, depth: int)
    requires start.z == 0.0 && end.z == 0.0
    ensures Flat(Branches(start, end, level, depth).verts)
    decreases depth - level
  {
    if level < depth {
      var mid := Midpoint(start, end);
      BranchesFlat(end, StraightEnd(start, end), level + 1, depth);
      BranchesFlat(mid, LeftEnd(start, end), level + 1, depth);
      BranchesFlat(mid, RightEnd(start, end), level + 1, depth);
    }
  }

  lemma ChildrenDistinct(start: Vec3, end: Vec3)
    requires DistinctXY(start, end)
    ensures DistinctXY(end, StraightEnd(start, end))
    ensures DistinctXY(Midpoint(start, end), LeftEnd(start, end))
    ensures DistinctXY(Midpoint(start, end), RightEnd(start, end))
  {
  }

  lemma {:induction false} BranchesNonDegenerate(start: Vec3, end: Vec3, level: nat, depth: int)
    requires DistinctXY(start, end)
    ensures SegmentsNonDegenerate(Branches(start, end, level, depth).verts)
    decreases depth - level
  {
    if level < depth {
      var mid := Midpoint(start, end);
      var a := Branches(end, StraightEnd(start, end), level + 1, depth);
      var b := Branches(mid, LeftEnd(start, end), level + 1, depth);
      var c := Branches(mid, RightEnd(start, end), level + 1, depth);
      ChildrenDistinct(start, end);
      BranchesNonDegenerate(end, StraightEnd(start, end), level + 1, depth);
      BranchesNonDegenerate(mid, LeftEnd(start, end), level + 1, depth);
      BranchesNonDegenerate(mid, RightEnd(start, end), level + 1, depth);
      BranchesEven(end, StraightEnd(start, end), level + 1, depth);
      BranchesEven(mid, LeftEnd(start, end), level + 1, depth);
      NonDegenerateChildren(start, end, a.verts, b.verts, c.verts);
      assert Branches(start, end, level, depth).verts == [start, end] + a.verts + b.verts + c.verts;
    }
  }

  lemma NonDegenerateChildren(start: Vec3, end: Vec3, a: seq<Vec3>, b: seq<Vec3>, c: seq<Vec3>)
    requires DistinctXY(start, end)
    requires SegmentsNonDegenerate(a) && SegmentsNonDegenerate(b) && SegmentsNonDegenerate(c)
    requires |a| % 2 == 0 && |b| % 2 == 0
    ensures SegmentsNonDegenerate([start, end] + a + b + c)
  {
    var seg := [start, end];
    assert SegmentsNonDegenerate(seg);
    NonDegenerateThen(seg, a);
    var sa := seg + a;
    assert |sa| == 2 + |a|;
    assert |sa| % 2 == 0;
    NonDegenerateThen(sa, b);
    var sab := sa + b;
    assert |sab| == |sa| + |b|;
    assert |sab| % 2 == 0;
    NonDegenerateThen(sab, c);
  }

  // ---------------------------------------------------------------------
  // The whole tree

  /** The tree of depth d >= 0 has (3^(d+1) - 1) / 2 branches, so
      3^(d+1) - 1 vertices, one colour each; its first branch is the trunk
      (0, -0.8, 0) -> (0, -0.3, 0) in brown. */
  lemma TreeShape(depth: int)
    requires depth >= 0
    ensures var m := Tree(depth);
      && |m.verts| == |m.cols| == Pow(3, depth + 1) - 1
      && m.verts[0] == Vec3(0.0, -0.8, 0.0) && m.verts[1] == Vec3(0.0, -0.3, 0.0)
      && m.cols[0] == m.cols[1] == Vec3(0.4, 0.3, 0.2)
  {
    BranchesSize(TrunkStart, TrunkEnd, 0, depth);
    LevelsSize(0, depth);
    BranchesStart(TrunkStart, TrunkEnd, 0, depth);
  }

  /** A negative depth draws the trunk alone, as depth 0 does. */
  lemma TreeTrunkOnly(depth: int)
    requires depth <= 0
    ensures Tree(depth) == Mesh([TrunkStart, TrunkEnd], [Brown, Brown])
  {
  }

  /** Segment k of the tree is branch k in emission order; its level is
      Levels(0, depth)[k]. Both of its colours are brown when that level is
      at most 3 and forest green otherwise; and there are exactly 3^k
      branches at each level k <= depth. */
  lemma TreeColours(depth: int)
    ensures var m := Tree(depth);
      var ls := Levels(0, depth);
      && |m.verts| == |m.cols| == 2 * |ls|
      && (forall i :: 0 <= i < |m.cols| ==>
            m.cols[i] == (if ls[i / 2] <= 3 then Vec3(0.4, 0.3, 0.2) else Vec3(0.13, 0.55, 0.13)))
      && (forall k :: multiset(ls)[k] == if 0 <= k <= Height(0, depth) then Pow(3, k) else 0)
  {
    BranchesSize(TrunkStart, TrunkEnd, 0, depth);
    BranchesColours(TrunkStart, TrunkEnd, 0, depth);
    ColoursOfAt(Levels(0, depth));
    LevelCounts(0, depth);
  }

  /** The tree lies in the plane z = 0, every branch has a non-zero
      direction (so normalising it is defined), and every branch but the
      trunk grows from the end or the midpoint of an earlier branch. */
  lemma TreeWellFormed(depth: int)
    ensures Flat(Tree(depth).verts)
    ensures SegmentsNonDegenerate(Tree(depth).verts)
    ensures Attached(Tree(depth).verts)
  {
    BranchesFlat(TrunkStart, TrunkEnd, 0, depth);
    BranchesNonDegenerate(TrunkStart, TrunkEnd, 0, depth);
    BranchesAttached(TrunkStart, TrunkEnd, 0, depth);
  }
}
