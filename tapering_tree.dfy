/**
 * The tapering renderer of regrow.c (`draw_tree_new`): a trunk straight up
 * from an anchor, a pair of arcs at its tip, then the same again from the
 * tip with a trunk 20% shorter and arcs half as wide, until the guard fails.
 *
 * The arc's vertical offset `(int)(50 * sin(i * 3.1414 / 180))` is floating
 * point; it is the parameter `dy`, with `-50 <= dy(i) <= 50`. Arc writes are
 * not provably inside the store, so they go through the bounds-checked `Put`
 * and the pass reports the first one that falls outside.
 */
module TaperingTree {
  import opened Pixels

  /** The guard of `draw_tree_new`: both sizes above 20 and the trunk plus 50 rows of arc still below row 0. */
  predicate Continues(position: int, width: nat, treeSize: nat, branchWidth: nat): (c: bool)
    ensures c ==> position - width * treeSize > 0 && treeSize >= 21 && branchWidth >= 21
  {
    treeSize > 20 && branchWidth > 20 && position - width * treeSize - width * 50 > 0
  }

  /**
   * The sizes of the next level: the trunk loses a fifth (rounded down) and
   * the arcs halve (rounded down). Both strictly shrink once above 20.
   */
  function Shrink(treeSize: nat, branchWidth: nat): (r: (nat, nat))
    ensures 4 * treeSize <= 5 * r.0 <= 5 * treeSize
    ensures treeSize >= 5 ==> r.0 < treeSize
    ensures 2 * r.1 <= branchWidth <= 2 * r.1 + 1
    ensures branchWidth >= 1 ==> r.1 < branchWidth
  {
    (treeSize - treeSize / 5, branchWidth / 2)
  }

  /** The first `n` trunk writes from `position`: one cell per row, straight up. */
  function TrunkWrites(position: int, width: nat, n: nat): (ws: seq<Write>)
    ensures |ws| == n
    ensures forall k :: 0 <= k < n ==> ws[k] == Write(position - width * k, TrunkColor)
  {
    if n == 0 then [] else TrunkWrites(position, width, n - 1) + [Write(position - width * (n - 1), TrunkColor)]
  }

  /** The first `n` pairs of arc writes around `tip`: left then right, lifted by `dy(i)` rows. */
  function ArcWrites(tip: int, width: nat, n: nat, dy: int -> int): (ws: seq<Write>)
    ensures |ws| == 2 * n
    ensures forall j :: 0 <= j < |ws| ==> ws[j].color == BranchColor
  {
    if n == 0 then []
    else
      var i := n - 1;
      ArcWrites(tip, width, i, dy)
        + [Write(tip - i - width * dy(i), BranchColor), Write(tip + i - width * dy(i), BranchColor)]
  }

  /** Every write of `draw_tree_new(position, treeSize, branchWidth)`, in program order. */
  ghost function TaperPlan(position: int, width: nat, treeSize: nat, branchWidth: nat, dy: int -> int): (ws: seq<Write>)
    ensures ws == [] <==> !Continues(position, width, treeSize, branchWidth)
    ensures Continues(position, width, treeSize, branchWidth) ==> |ws| >= treeSize + 2 * branchWidth
    ensures Continues(position, width, treeSize, branchWidth) ==>
      ws[..treeSize] == TrunkWrites(position, width, treeSize)
    decreases treeSize
  {
    if Continues(position, width, treeSize, branchWidth) then
      var tip := position - width * treeSize;
      var (nextSize, nextWidth) := Shrink(treeSize, branchWidth);
      TrunkWrites(position, width, treeSize) + ArcWrites(tip, width, branchWidth, dy)
        + TaperPlan(tip, width, nextSize, nextWidth, dy)
    else []
  }

  /** How many levels `draw_tree_new` draws before its guard fails. */
  ghost function Levels(position: int, width: nat, treeSize: nat, branchWidth: nat): nat
    decreases treeSize
  {
    if Continues(position, width, treeSize, branchWidth) then
      var (nextSize, nextWidth) := Shrink(treeSize, branchWidth);
      1 + Levels(position - width * treeSize, width, nextSize, nextWidth)
    else 0
  }

  function Pow2(n: nat): nat {
    if n == 0 then 1 else 2 * Pow2(n - 1)
  }

  /**
   * The recursion is logarithmic in the arc width: `n >= 1` levels need
   * `branchWidth >= 21 * 2^(n-1)`, since each level halves a width above 20.
   */
  lemma {:induction false} LevelsLogarithmic(position: int, width: nat, treeSize: nat, branchWidth: nat)
    ensures Levels(position, width, treeSize, branchWidth) > 0 ==>
      21 * Pow2(Levels(position, width, treeSize, branchWidth) - 1) <= branchWidth
    decreases treeSize
  {
    if Continues(position, width, treeSize, branchWidth) {
      var (nextSize, nextWidth) := Shrink(treeSize, branchWidth);
      LevelsLogarithmic(position - width * treeSize, width, nextSize, nextWidth);
    }
  }

  /**
   * `Levels` counts the levels of the plan: none exactly when the plan is
   * empty, and every level contributes at least its 21-pixel trunk and the
   * 42 writes of its arcs.
   */
  lemma {:induction false} LevelsOfPlan(position: int, width: nat, treeSize: nat, branchWidth: nat, dy: int -> int)
    ensures Levels(position, width, treeSize, branchWidth) == 0 <==> TaperPlan(position, width, treeSize, branchWidth, dy) == []
    ensures |TaperPlan(position, width, treeSize, branchWidth, dy)| >= 63 * Levels(position, width, treeSize, branchWidth)
    decreases treeSize
  {
    if Continues(position, width, treeSize, branchWidth) {
      var (nextSize, nextWidth) := Shrink(treeSize, branchWidth);
      LevelsOfPlan(position - width * treeSize, width, nextSize, nextWidth, dy);
    }
  }

  /** With `treeSize <= 20` or `branchWidth <= 20` nothing is written and there is no recursion. */
  lemma StopsAtThreshold(position: int, width: nat, treeSize: nat, branchWidth: nat, dy: int -> int)
    requires treeSize <= 20 || branchWidth <= 20
    ensures TaperPlan(position, width, treeSize, branchWidth, dy) == []
    ensures Levels(position, width, treeSize, branchWidth) == 0
  {
  }

  /** Sizes 100 and 50 give at most two levels, wherever the anchor is: 50, 25, then 12 stops. */
  lemma LevelsOfExample(position: int, width: nat)
    ensures Levels(position, width, 100, 50) <= 2
  {
    var p1 := position - width * 100;
    var p2 := p1 - width * 80;
    assert Levels(p2, width, 64, 12) == 0;
    assert Levels(p1, width, 80, 25) <= 1;
  }

  /**
   * Under the guard, every trunk cell `position - width * k` (`0 <= k <
   * treeSize`) lies in `(0, position]`, and the trunk ends `width *
   * treeSize` below `position`: that tip is where the arcs and the next
   * level start.
   */
  lemma TrunkInStore(position: int, width: nat, treeSize: nat, branchWidth: nat)
    requires Continues(position, width, treeSize, branchWidth)
    ensures forall k :: 0 <= k < treeSize ==> 0 < position - width * k <= position
    ensures 0 < position - width * treeSize <= position
  {
    forall k | 0 <= k < treeSize
      ensures 0 < position - width * k <= position
    {
      MulMono(width, k, treeSize);
      MulMono(width, 0, k);
    }
    MulMono(width, 0, 50);
  }

  /**
   * The guard's `width * 50` covers the arc's vertical lift: the cell `dy(i)`
   * rows above the tip is still past the first cell of the store. Only the
   * horizontal shift `-i`, or a negative `dy(i)` below the last row, can take
   * an arc write outside the store.
   */
  lemma ArcLiftInStore(position: int, width: nat, treeSize: nat, branchWidth: nat, dy: int -> int, i: int)
    requires Continues(position, width, treeSize, branchWidth)
    requires forall j :: -50 <= dy(j) <= 50
    ensures 0 < position - width * treeSize - width * dy(i)
  {
    MulMono(width, dy(i), 50);
  }

  /**
   * Over the whole recursion every write is a trunk write inside `(0,
   * position]` or an arc write; so when the anchor lies in the store, a
   * fault can only come from an arc.
   */
  lemma {:induction false} PlanTrunkInStore(position: int, width: nat, treeSize: nat, branchWidth: nat, dy: int -> int)
    ensures forall j :: 0 <= j < |TaperPlan(position, width, treeSize, branchWidth, dy)| ==>
      var w := TaperPlan(position, width, treeSize, branchWidth, dy)[j];
      w.color == BranchColor || (w.color == TrunkColor && 0 < w.index <= position)
    decreases treeSize
  {
    if Continues(position, width, treeSize, branchWidth) {
      var tip := position - width * treeSize;
      var (nextSize, nextWidth) := Shrink(treeSize, branchWidth);
      TrunkInStore(position, width, treeSize, branchWidth);
      PlanTrunkInStore(tip, width, nextSize, nextWidth, dy);
      var trunk := TrunkWrites(position, width, treeSize);
      var arcs := ArcWrites(tip, width, branchWidth, dy);
      var rest := TaperPlan(tip, width, nextSize, nextWidth, dy);
      var plan := TaperPlan(position, width, treeSize, branchWidth, dy);
      assert plan == trunk + arcs + rest;
      forall j | 0 <= j < |plan|
        ensures plan[j].color == BranchColor || (plan[j].color == TrunkColor && 0 < plan[j].index <= position)
      {
        if j < |trunk| {
          assert plan[j] == trunk[j];
        } else if j < |trunk| + |arcs| {
          assert plan[j] == arcs[j - |trunk|];
        } else {
          assert plan[j] == rest[j - |trunk| - |arcs|];
        }
      }
    }
  }

  /** When the anchor lies in the store, the first fault of a tapering pass is an arc write. */
  lemma FaultIsArc(position: int, width: nat, treeSize: nat, branchWidth: nat, dy: int -> int, n: int)
    requires position < n
    requires FirstFault(TaperPlan(position, width, treeSize, branchWidth, dy), n).OutOfBounds?
    ensures exists j :: (0 <= j < |TaperPlan(position, width, treeSize, branchWidth, dy)| &&
      TaperPlan(position, width, treeSize, branchWidth, dy)[j]
        == Write(FirstFault(TaperPlan(position, width, treeSize, branchWidth, dy), n).index, BranchColor))
  {
    var plan := TaperPlan(position, width, treeSize, branchWidth, dy);
    PlanTrunkInStore(position, width, treeSize, branchWidth, dy);
    FirstFaultMeaning(plan, n);
    var k := FirstFault(plan, n).index;
    var j :| 0 <= j < |plan| && plan[j].index == k;
    assert plan[j] == Write(k, BranchColor);
  }

  /**
   * The first loop of `draw_tree_new`: `treeSize` trunk pixels straight up,
   * moving `position` up one row per pixel; returns where it stopped. Every
   * write lies in the store, so it is a plain array store.
   */
  method DrawTrunk(data: array<uint32>, position: int, width: nat, treeSize: nat) returns (tip: int)
    requires position < data.Length && position - width * treeSize > 0
    modifies data
    ensures tip == position - width * treeSize
    ensures data[..] == Paint(old(data[..]), TrunkWrites(position, width, treeSize))
    ensures FirstFault(TrunkWrites(position, width, treeSize), data.Length) == Drawn
  {
    ghost var s0 := data[..];
    tip := position;
    for i := 0 to treeSize
      invariant tip == position - width * i
      invariant data[..] == Paint(s0, TrunkWrites(position, width, i))
      invariant FirstFault(TrunkWrites(position, width, i), data.Length) == Drawn
    {
      MulMono(width, i, treeSize);
      MulMono(width, 0, i);
      PaintAppend(s0, TrunkWrites(position, width, i), [Write(tip, TrunkColor)]);
      data[tip] := TrunkColor;
      tip := tip - width;
    }
  }

  /** What a single write reports, given whether the store accepted it. */
  function FaultOf(w: Write, accepted: bool): Outcome {
    if accepted then Drawn else OutOfBounds(w.index)
  }

  /**
   * The second loop of `draw_tree_new`: for each `i` below `branchWidth`, the
   * left then the right arc pixel, through the bounds-checked store. The
   * outcome is the first refused write.
   */
  method DrawArcs(data: array<uint32>, tip: int, width: nat, branchWidth: nat, dy: int -> int)
    returns (outcome: Outcome)
    modifies data
    ensures data[..] == Paint(old(data[..]), ArcWrites(tip, width, branchWidth, dy))
    ensures outcome == FirstFault(ArcWrites(tip, width, branchWidth, dy), data.Length)
  {
    ghost var s0 := data[..];
    outcome := Drawn;
    for i := 0 to branchWidth
      invariant data[..] == Paint(s0, ArcWrites(tip, width, i, dy))
      invariant outcome == FirstFault(ArcWrites(tip, width, i, dy), data.Length)
    {
      ghost var done := ArcWrites(tip, width, i, dy);
      ghost var mid := data[..];
      var left := Write(tip - i - width * dy(i), BranchColor);
      var right := Write(tip + i - width * dy(i), BranchColor);
      ghost var pair := [left, right];
      assert [left] + [right] == pair;
      var leftIn := Put(data, left.index, left.color);
      var rightIn := Put(data, right.index, right.color);
      PaintAppend(mid, [left], [right]);
      PaintAppend(s0, done, pair);
      outcome := Then(outcome, FaultOf(left, leftIn));
      outcome := Then(outcome, FaultOf(right, rightIn));
      assert ArcWrites(tip, width, i + 1, dy) == done + pair;
    }
  }

  /**
   * `draw_tree_new`: under the guard, the trunk, the arcs at its tip, then
   * the next level from the tip with the shrunk sizes. The array ends as the
   * whole plan painted over it, and the outcome is the plan's first fault.
   */
  method DrawTreeNew(data: array<uint32>, position: int, width: nat, treeSize: nat, branchWidth: nat, dy: int -> int)
    returns (outcome: Outcome)
    requires position < data.Length
    modifies data
    ensures data[..] == Paint(old(data[..]), TaperPlan(position, width, treeSize, branchWidth, dy))
    ensures outcome == FirstFault(TaperPlan(position, width, treeSize, branchWidth, dy), data.Length)
    decreases treeSize
  {
    if !Continues(position, width, treeSize, branchWidth) {
      return Drawn;
    }
    ghost var s0 := data[..];
    TrunkInStore(position, width, treeSize, branchWidth);
    var pos := DrawTrunk(data, position, width, treeSize);
    ghost var s1 := data[..];
    ghost var trunk := TrunkWrites(position, width, treeSize);
    ghost var arcs := ArcWrites(pos, width, branchWidth, dy);
    outcome := DrawArcs(data, pos, width, branchWidth, dy);
    PaintAppend(s0, trunk, arcs);
    var (nextSize, nextWidth) := Shrink(treeSize, branchWidth);
    ghost var rest := TaperPlan(pos, width, nextSize, nextWidth, dy);
    assert TaperPlan(position, width, treeSize, branchWidth, dy) == trunk + arcs + rest;
    var deeper := DrawTreeNew(data, pos, width, nextSize, nextWidth, dy);
    PaintAppend(s0, trunk + arcs, rest);
    outcome := Then(outcome, deeper);
  }
}
