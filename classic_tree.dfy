/**
 * The classic renderer of regrow.c: a vertical trunk (`draw_tree`) and a
 * binary recursion of 45-degree branch arms (`draw_branches`), painted into
 * a flat pixel array addressed as `x + y * width`.
 */
module ClassicTree {
  import opened Pixels

  /**
   * The two anchors `draw_branches` recurses from: `b` rows up and `b`
   * columns to either side. With `b >= 1` on a store wider than one pixel
   * both lie strictly before `position`, so the recursion terminates; with
   * `b == 0` both are `position` itself and it never would.
   */
  function ChildAnchors(position: int, width: nat, b: nat): (c: (int, int))
    ensures b >= 1 && width > 1 ==> c.0 < position && c.1 < position
    ensures b == 0 ==> c.0 == position && c.1 == position
    ensures c.1 - c.0 == 2 * b
  {
    assert width > 1 ==> 2 * b <= width * b by {
      if width > 1 {
        MulMono(b, 2, width);
      }
    }
    (position - width * b - b, position - width * b + b)
  }

  /**
   * Arm `i` of an anchor above `width * b`: both of its cells lie in
   * `(0, position]`, the left one at or before the right one.
   */
  lemma ArmCellBounds(position: int, width: nat, i: nat, b: nat)
    requires i < b < width && position > width * b
    ensures 0 < position - width * i - i <= position - width * i + i <= position
  {
    MulMono(width, 1, b - i);
    assert width * b - width * i == width * (b - i);
    MulMono(i, 1, width);
    assert width * i == i * width;
  }

  /**
   * The cells of the two arms drawn at `position` for `i` in `[0, n)`. Arm 0
   * is the anchor itself, so any arm at all paints `position`.
   */
  ghost function ArmCells(position: int, width: nat, n: nat): (c: set<int>)
    ensures n >= 1 ==> position in c
  {
    if n == 0 then {}
    else ArmCells(position, width, n - 1)
         + {position - width * (n - 1) - (n - 1), position - width * (n - 1) + (n - 1)}
  }

  /**
   * Every cell `draw_branches(position, b)` paints, over the whole recursion.
   * Past the guard the anchor is one of them; before it there are none.
   */
  ghost function BranchCells(position: int, width: nat, b: nat): (c: set<int>)
    requires 1 <= b < width
    ensures position > width * b ==> position in c
    ensures position <= width * b ==> c == {}
    decreases if position > 0 then position else 0
  {
    if position > width * b then
      var (left, right) := ChildAnchors(position, width, b);
      ArmCells(position, width, b) + BranchCells(left, width, b) + BranchCells(right, width, b)
    else {}
  }

  /** The arm cells at an anchor above `width * n` lie between the anchor's row below and the anchor. */
  lemma {:induction false} ArmCellsInStore(position: int, width: nat, n: nat, b: nat)
    requires n <= b < width && position > width * b
    ensures forall k :: k in ArmCells(position, width, n) ==> 0 < k <= position
  {
    if n > 0 {
      ArmCellsInStore(position, width, n - 1, b);
      ArmCellBounds(position, width, n - 1, b);
    }
  }

  /**
   * Every cell `draw_branches` paints lies in `(0, position]`: the guard
   * `position > width * b` keeps the whole recursion inside the store.
   */
  lemma {:induction false} BranchCellsInStore(position: int, width: nat, b: nat)
    requires 1 <= b < width
    ensures forall k :: k in BranchCells(position, width, b) ==> 0 < k <= position
    decreases if position > 0 then position else 0
  {
    if position > width * b {
      var (left, right) := ChildAnchors(position, width, b);
      ArmCellsInStore(position, width, b, b);
      BranchCellsInStore(left, width, b);
      BranchCellsInStore(right, width, b);
    }
  }

  /**
   * `draw_branches`: paints the two arms at `position` and recurses from both
   * child anchors. Exactly the cells of `BranchCells` turn green; every other
   * cell keeps its value.
   */
  method DrawBranches(data: array<uint32>, position: int, width: nat, branchSize: nat)
    requires 1 <= branchSize < width
    requires position < data.Length
    modifies data
    ensures forall k :: 0 <= k < data.Length ==>
      data[k] == if k in BranchCells(position, width, branchSize) then BranchColor else old(data[k])
    decreases if position > 0 then position else 0
  {
    if position > width * branchSize {
      ghost var painted: set<int> := {};
      for i := 0 to branchSize
        invariant painted == ArmCells(position, width, i)
        invariant forall k :: 0 <= k < data.Length ==>
          data[k] == if k in painted then BranchColor else old(data[k])
      {
        ArmCellBounds(position, width, i, branchSize);
        data[position - width * i - i] := BranchColor;
        data[position - width * i + i] := BranchColor;
        painted := painted + {position - width * i - i, position - width * i + i};
      }
      var (left, right) := ChildAnchors(position, width, branchSize);
      DrawBranches(data, left, width, branchSize);
      DrawBranches(data, right, width, branchSize);
    }
  }

  /** The cells `x + width * r` of column `x` for the rows `r` in `[r0, r1)`. */
  ghost function ColumnCells(x: int, width: nat, r0: int, r1: int): set<int>
    decreases r1 - r0
  {
    if r0 >= r1 then {} else {x + width * r0} + ColumnCells(x, width, r0 + 1, r1)
  }

  /** The anchor of the branches: the centre column, `height / 4` rows above the bottom edge. */
  function TreeAnchor(width: nat, height: nat): (a: int)
    ensures width >= 1 && height >= 4 ==> InStore(a, width * height)
  {
    if width >= 1 && height >= 4 then
      TrunkRowInStore(width, height, height - height / 4);
      width / 2 + width * (height - height / 4)
    else
      width / 2 + width * (height - height / 4)
  }

  /** The trunk as intended: the centre column from the bottom row up to the anchor row. */
  ghost function TrunkCells(width: nat, height: nat): set<int> {
    ColumnCells(width / 2, width, height - height / 4, height)
  }

  /** The trunk as the loop of `draw_tree` writes it: rows `height` down to `height - height/4 + 1`. */
  ghost function TrunkCellsAsWritten(width: nat, height: nat): set<int> {
    ColumnCells(width / 2, width, height - height / 4 + 1, height + 1)
  }

  /** The centre-column cell of row `i` lies in the store exactly when `0 <= i < height`. */
  lemma TrunkRowInStore(width: nat, height: nat, i: int)
    requires width >= 1
    ensures InStore(width / 2 + width * i, width * height) <==> 0 <= i < height
  {
    if i < 0 {
      MulMono(width, i, -1);
    } else if i < height {
      MulMono(width, i, height - 1);
      assert width * height - width * (height - 1) == width;
    } else {
      MulMono(width, height, i);
    }
  }

  /** The centre-column cells of rows `[r0, r1)` lie in the store when those rows do. */
  lemma {:induction false} ColumnCellsInStore(width: nat, height: nat, r0: int, r1: int)
    requires width >= 1 && 0 <= r0 && r1 <= height
    ensures forall k :: k in ColumnCells(width / 2, width, r0, r1) ==> InStore(k, width * height)
    decreases r1 - r0
  {
    if r0 < r1 {
      TrunkRowInStore(width, height, r0);
      ColumnCellsInStore(width, height, r0 + 1, r1);
    }
  }

  /** The intended trunk lies inside a store of `width * height` pixels and ends at the anchor. */
  lemma TrunkCellsInStore(width: nat, height: nat)
    requires width >= 1 && height >= 4
    ensures forall k :: k in TrunkCells(width, height) ==> 0 <= k < width * height
    ensures TreeAnchor(width, height) in TrunkCells(width, height)
  {
    ColumnCellsInStore(width, height, height - height / 4, height);
  }

  /**
   * The trunk as written starts one row below the store: its first cell is
   * `width * height + width / 2`, outside a store of `width * height` pixels.
   */
  lemma TrunkAsWrittenOverruns(width: nat, height: nat)
    requires width >= 1 && height >= 4
    ensures width * height + width / 2 in TrunkCellsAsWritten(width, height)
    ensures !InStore(width * height + width / 2, width * height)
    ensures forall k :: k in TrunkCellsAsWritten(width, height) && k != width * height + width / 2 ==>
      0 <= k < width * height
  {
    var x, r0 := width / 2, height - height / 4 + 1;
    ColumnCellsInStore(width, height, r0, height);
    TrunkRowInStore(width, height, height);
    ColumnCellsSplitLast(x, width, r0, height + 1);
    assert x + width * height == width * height + width / 2;
  }

  /** A column splits off its last row. */
  lemma {:induction false} ColumnCellsSplitLast(x: int, width: nat, r0: int, r1: int)
    requires r0 < r1
    ensures ColumnCells(x, width, r0, r1) == ColumnCells(x, width, r0, r1 - 1) + {x + width * (r1 - 1)}
    decreases r1 - r0
  {
    if r0 < r1 - 1 {
      ColumnCellsSplitLast(x, width, r0 + 1, r1);
    }
  }

  /**
   * Inside the store the two trunks give the same picture: they differ only
   * in the overrun cell, outside the store, and in the anchor, which the
   * branches paint green in both.
   */
  lemma {:induction false} TrunksAgreeInStore(width: nat, height: nat, b: nat)
    requires height >= 4 && 1 <= b < width && TreeAnchor(width, height) > width * b
    ensures forall k :: InStore(k, width * height) ==>
      (k in BranchCells(TreeAnchor(width, height), width, b) || k in TrunkCellsAsWritten(width, height)) ==
      (k in BranchCells(TreeAnchor(width, height), width, b) || k in TrunkCells(width, height))
    ensures forall k :: InStore(k, width * height) && k !in BranchCells(TreeAnchor(width, height), width, b) ==>
      (k in TrunkCellsAsWritten(width, height) <==> k in TrunkCells(width, height))
  {
    var x, r0 := width / 2, height - height / 4;
    TrunkAsWrittenOverruns(width, height);
    ColumnCellsSplitLast(x, width, r0 + 1, height + 1);
    assert TrunkCells(width, height) == {x + width * r0} + ColumnCells(x, width, r0 + 1, height);
    assert x + width * r0 == TreeAnchor(width, height);
  }

  /** Cell `k` after `draw_tree` as written, over a cell that held `under`. */
  ghost function AsWrittenPixel(width: nat, height: nat, branchWidth: nat, k: int, under: uint32): uint32
    requires 2 <= branchWidth && branchWidth / 2 < width
  {
    if k in BranchCells(TreeAnchor(width, height), width, branchWidth / 2) then BranchColor
    else if k in TrunkCellsAsWritten(width, height) then TrunkColor
    else under
  }

  /**
   * `draw_tree` as written, on a bounds-checked store: the trunk loop runs `i`
   * from `height` down to `height - height/4 + 1`, so its first write falls
   * outside a store of `width * height` pixels and is reported; every other
   * trunk cell turns brown, then the branches are drawn from the anchor.
   */
  method DrawTreeAsWritten(data: array<uint32>, width: nat, height: nat, branchWidth: nat)
    returns (outcome: Outcome)
    requires data.Length == width * height && height >= 4
    requires 2 <= branchWidth && branchWidth / 2 < width
    modifies data
    ensures outcome == OutOfBounds(width * height + width / 2)
    ensures forall k :: 0 <= k < data.Length ==> data[k] == AsWrittenPixel(width, height, branchWidth, k, old(data[k]))
  {
    var position := width / 2 + width * (height - height / 4);
    var branchSize := branchWidth / 2;
    outcome := Drawn;
    ghost var painted: set<int> := {};
    var i := height;
    while i > height - height / 4
      invariant height - height / 4 <= i <= height
      invariant painted == ColumnCells(width / 2, width, i + 1, height + 1)
      invariant outcome == if i < height then OutOfBounds(width * height + width / 2) else Drawn
      invariant forall k :: 0 <= k < data.Length ==>
        data[k] == if k in painted then TrunkColor else old(data[k])
    {
      TrunkRowInStore(width, height, i);
      var ok := Put(data, width / 2 + width * i, TrunkColor);
      if !ok && outcome.Drawn? {
        outcome := OutOfBounds(width / 2 + width * i);
      }
      painted := painted + {width / 2 + width * i};
      i := i - 1;
    }
    assert painted == TrunkCellsAsWritten(width, height);
    assert position == TreeAnchor(width, height);
    TrunkRowInStore(width, height, height - height / 4);
    DrawBranches(data, position, width, branchSize);
  }

  /**
   * `draw_tree` with the trunk loop moved one row up, to rows `height - 1`
   * down to `height - height/4`: every write lies in the store. The trunk
   * turns brown, then the branches turn green (the anchor pixel is the top
   * of the trunk and the first pixel of both arms, so it ends green).
   */
  method DrawTree(data: array<uint32>, width: nat, height: nat, branchWidth: nat)
    requires data.Length == width * height && height >= 4
    requires 2 <= branchWidth && branchWidth / 2 < width
    modifies data
    ensures forall k :: 0 <= k < data.Length ==>
      data[k] == if k in BranchCells(TreeAnchor(width, height), width, branchWidth / 2) then BranchColor
                 else if k in TrunkCells(width, height) then TrunkColor
                 else old(data[k])
  {
    var position := width / 2 + width * (height - height / 4);
    var branchSize := branchWidth / 2;
    ghost var painted: set<int> := {};
    var i := height - 1;
    while i >= height - height / 4
      invariant height - height / 4 - 1 <= i <= height - 1
      invariant painted == ColumnCells(width / 2, width, i + 1, height)
      invariant forall k :: 0 <= k < data.Length ==>
        data[k] == if k in painted then TrunkColor else old(data[k])
    {
      TrunkRowInStore(width, height, i);
      data[width / 2 + width * i] := TrunkColor;
      painted := painted + {width / 2 + width * i};
      i := i - 1;
    }
    assert painted == TrunkCells(width, height);
    assert position == TreeAnchor(width, height);
    TrunkRowInStore(width, height, height - height / 4);
    DrawBranches(data, position, width, branchSize);
  }
}
