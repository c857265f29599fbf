/** The demo's selection state: which fractal is shown, and per fractal its
    maximum and current iteration depth, driven by key presses. Every change
    regenerates the CPU geometry of the selected fractal. */
module FractalState {
  import opened Geometry
  import Sierpinski
  import Levy
  import FractalTree

  datatype FractalType = SierpinskiTriangle | LevyCurve | Tree

  /** The enum value's zero-based index. */
  function Index(t: FractalType): (i: nat)
    ensures i < 3
  {
    match t
    case SierpinskiTriangle => 0
    case LevyCurve => 1
    case Tree => 2
  }

  /** The enum value with index i: the cast from (key - KEY_1). */
  function FromIndex(i: int): (t: FractalType)
    requires 0 <= i < 3
    ensures Index(t) == i
  {
    if i == 0 then SierpinskiTriangle else if i == 1 then LevyCurve else Tree
  }

  /** The primitive topology each fractal is drawn with. */
  datatype DrawingMode = Triangles | Lines

  datatype FractalConfig = FractalConfig(maxIteration: int, currentIteration: int, drawingMode: DrawingMode)

  /** The initial table, indexed by FractalType: maxima 6, 12 and 10, all
      starting at iteration 0. */
  const InitialConfigs: seq<FractalConfig> := [
    FractalConfig(6, 0, Triangles),
    FractalConfig(12, 0, Lines),
    FractalConfig(10, 0, Lines)
  ]

  /** GLFW's key and action codes (from the GLFW header). */
  const Press := 1
  const Key1 := 49
  const Key3 := 51
  const KeyDown := 264
  const KeyUp := 265

  predicate InRange(c: FractalConfig)
  {
    0 <= c.currentIteration <= c.maxIteration
  }

  function Min(a: int, b: int): int
  {
    if b < a then b else a
  }

  function Max(a: int, b: int): int
  {
    if a < b then b else a
  }

  /** UP: one iteration more, clamped at the maximum. */
  function IterateUp(c: FractalConfig): (r: FractalConfig)
    ensures r.maxIteration == c.maxIteration && r.drawingMode == c.drawingMode
    ensures r.currentIteration <= r.maxIteration
    ensures InRange(c) ==> InRange(r)
    ensures InRange(c) ==> c.currentIteration <= r.currentIteration <= c.currentIteration + 1
    ensures InRange(c) ==> (r.currentIteration == c.currentIteration <==> c.currentIteration == c.maxIteration)
  {
    c.(currentIteration := Min(c.currentIteration + 1, c.maxIteration))
  }

  /** DOWN: one iteration fewer, clamped at 0. */
  function IterateDown(c: FractalConfig): (r: FractalConfig)
    ensures r.maxIteration == c.maxIteration && r.drawingMode == c.drawingMode
    ensures r.currentIteration >= 0
    ensures InRange(c) ==> InRange(r)
    ensures InRange(c) ==> c.currentIteration - 1 <= r.currentIteration <= c.currentIteration
    ensures InRange(c) ==> (r.currentIteration == c.currentIteration <==> c.currentIteration == 0)
  {
    c.(currentIteration := Max(c.currentIteration - 1, 0))
  }

  /** Away from the clamps, DOWN undoes UP and UP undoes DOWN. */
  lemma UpDownInverse(c: FractalConfig)
    requires InRange(c)
    ensures c.currentIteration < c.maxIteration ==> IterateDown(IterateUp(c)) == c
    ensures c.currentIteration > 0 ==> IterateUp(IterateDown(c)) == c
  {
  }

  /** n presses of UP. */
  function IterateUpTimes(c: FractalConfig, n: nat): FractalConfig
    decreases n
  {
    if n == 0 then c else IterateUpTimes(IterateUp(c), n - 1)
  }

  /** n presses of DOWN. */
  function IterateDownTimes(c: FractalConfig, n: nat): FractalConfig
    decreases n
  {
    if n == 0 then c else IterateDownTimes(IterateDown(c), n - 1)
  }

  /** From any in-range state, n presses of UP give min(cur + n, max), and n
      presses of DOWN give max(cur - n, 0): the iteration saturates and stays
      in range. */
  lemma {:induction false} RepeatedPresses(c: FractalConfig, n: nat)
    requires InRange(c)
    ensures IterateUpTimes(c, n) == c.(currentIteration := Min(c.currentIteration + n, c.maxIteration))
    ensures IterateDownTimes(c, n) == c.(currentIteration := Max(c.currentIteration - n, 0))
    decreases n
  {
    if n > 0 {
      RepeatedPresses(IterateUp(c), n - 1);
      RepeatedPresses(IterateDown(c), n - 1);
    }
  }

  /** The CPU geometry that updateFractal builds for a fractal at a given
      iteration. */
  function FractalGeometry(kind: FractalType, iteration: nat): Mesh
  {
    match kind
    case SierpinskiTriangle => Sierpinski.Sierpinski(iteration)
    case LevyCurve => Levy.LevyCurve(iteration)
    case Tree => FractalTree.Tree(iteration)
  }

  /** The geometry fits the fractal's drawing mode: a whole number of
      triangles for GL_TRIANGLES, of segments for GL_LINES, one colour per
      vertex, and never empty. */
  lemma GeometryFitsDrawingMode(kind: FractalType, iteration: nat)
    ensures var m := FractalGeometry(kind, iteration);
      && |m.verts| == |m.cols| > 0
      && (InitialConfigs[Index(kind)].drawingMode == Triangles ==> |m.verts| % 3 == 0)
      && (InitialConfigs[Index(kind)].drawingMode == Lines ==> |m.verts| % 2 == 0)
  {
    match kind
    case SierpinskiTriangle =>
      var m := Sierpinski.Sierpinski(iteration);
      Sierpinski.SierpinskiSize(iteration);
      assert |m.verts| == 3 * Pow(3, iteration);
    case LevyCurve =>
      var m := Levy.LevyCurve(iteration);
      Levy.CurveSize(Levy.Start, Levy.End, iteration, 0.0, 1.0);
      assert |m.verts| == 2 * Pow(2, iteration);
    case Tree =>
      var m := FractalTree.Tree(iteration);
      var ls := FractalTree.Levels(0, iteration);
      FractalTree.BranchesSize(FractalTree.TrunkStart, FractalTree.TrunkEnd, 0, iteration);
      assert ls[0] == 0;
      assert |m.verts| == 2 * |ls|;
  }

  /** The selection state: the selected fractal and the table of configs. */
  class FractalApp {
    var currentFractal: FractalType
    var fractalConfigs: array<FractalConfig>

    /** Three configs whose maxima and drawing modes never change and whose
        current iteration stays within [0, maxIteration]. */
    ghost predicate Valid()
      reads this, fractalConfigs
    {
      && fractalConfigs.Length == 3
      && forall i :: 0 <= i < 3 ==>
           && fractalConfigs[i].maxIteration == InitialConfigs[i].maxIteration
           && fractalConfigs[i].drawingMode == InitialConfigs[i].drawingMode
           && InRange(fractalConfigs[i])
    }

    constructor ()
      ensures Valid() && fresh(fractalConfigs)
      ensures currentFractal == SierpinskiTriangle
      ensures fractalConfigs[..] == InitialConfigs
    {
      currentFractal := SierpinskiTriangle;
      fractalConfigs := new FractalConfig[3] [InitialConfigs[0], InitialConfigs[1], InitialConfigs[2]];
    }

    /** The config of the selected fractal. */
    function CurrentConfig(): FractalConfig
      reads this, fractalConfigs
      requires Valid()
    {
      fractalConfigs[Index(currentFractal)]
    }

    /** Regenerates the CPU geometry of the selected fractal at its current
        iteration. */
    method UpdateFractal(g: CpuGeometry)
      requires Valid()
      modifies g
      ensures g.Contents() == FractalGeometry(currentFractal, CurrentConfig().currentIteration)
    {
      var config := fractalConfigs[Index(currentFractal)];
      match currentFractal
      case SierpinskiTriangle =>
        Sierpinski.GenerateSierpinskiTriangle(g, config.currentIteration);
      case LevyCurve =>
        Levy.GenerateLevyCurve(g, config.currentIteration);
      case Tree =>
        FractalTree.GenerateTree(g, config.currentIteration);
    }

    /** The key handler. On a press of 1, 2 or 3 it selects that fractal; of
        UP or DOWN it moves the selected fractal's iteration by one within
        its range; either way it then regenerates the geometry. Any other
        key or action changes nothing. */
    method KeyCallback(key: int, action: int, g: CpuGeometry)
      requires Valid()
      modifies this, fractalConfigs, g
      ensures Valid() && fractalConfigs == old(fractalConfigs)
      ensures action != Press ==>
        currentFractal == old(currentFractal) && fractalConfigs[..] == old(fractalConfigs[..]) && unchanged(g)
      ensures action == Press && Key1 <= key <= Key3 ==>
        && currentFractal == FromIndex(key - Key1)
        && fractalConfigs[..] == old(fractalConfigs[..])
        && g.Contents() == FractalGeometry(currentFractal, CurrentConfig().currentIteration)
      ensures action == Press && key == KeyUp ==>
        && currentFractal == old(currentFractal)
        && fractalConfigs[..] == old(fractalConfigs[..])[Index(currentFractal) := IterateUp(old(CurrentConfig()))]
        && g.Contents() == FractalGeometry(currentFractal, CurrentConfig().currentIteration)
      ensures action == Press && key == KeyDown ==>
        && currentFractal == old(currentFractal)
        && fractalConfigs[..] == old(fractalConfigs[..])[Index(currentFractal) := IterateDown(old(CurrentConfig()))]
        && g.Contents() == FractalGeometry(currentFractal, CurrentConfig().currentIteration)
      ensures action == Press && !(Key1 <= key <= Key3) && key != KeyUp && key != KeyDown ==>
        currentFractal == old(currentFractal) && fractalConfigs[..] == old(fractalConfigs[..]) && unchanged(g)
    {
      if action == Press {
        if Key1 <= key <= Key3 {
          currentFractal := FromIndex(key - Key1);
          UpdateFractal(g);
        } else if key == KeyUp {
          var i := Index(currentFractal);
          fractalConfigs[i] := IterateUp(fractalConfigs[i]);
          UpdateFractal(g);
        } else if key == KeyDown {
          var i := Index(currentFractal);
          fractalConfigs[i] := IterateDown(fractalConfigs[i]);
          UpdateFractal(g);
        }
      }
    }
  }
}
