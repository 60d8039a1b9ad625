/**
 * The animation loop of regrow.c: the client state that every frame
 * callback (`wl_surface_frame_done`) advances, and the frame it draws
 * (`draw_frame`), a fresh 1920x1000 buffer holding one tree whose kind and
 * sizes are re-rolled each time the scan row comes back to the top.
 *
 * `rand()` results and the clock's seconds are parameters; the sine of the
 * tapering tree's arcs is the offset function `dy`.
 */
module Animation {
  import opened Pixels
  import ClassicTree
  import TaperingTree

  /** The size of every frame buffer, in pixels. */
  const FrameWidth: nat := 1920
  const FrameHeight: nat := 1000

  /** Where the scan row starts, and how far it moves each frame. */
  const RowStart: uint16 := 1000
  const RowStep: int := 5

  /** The anchor `draw_frame` hands `draw_tree_new`: the centre of the bottom row. */
  const TaperAnchor: int := FrameWidth / 2 + FrameWidth * (FrameHeight - 1)

  /** The region of the surface reported as damaged. */
  datatype Rect = Rect(x: int, y: int, width: int, height: int)

  /** The sizes and kind of the tree on screen. */
  datatype Tree = Tree(branchWidth: uint16, treeSize: uint16, treeType: uint16)

  /** The ranges `rand() % (1920 / 2) + 50`, `rand() % (1000 / 2) + 100` and `rand() % 2` produce. */
  predicate TreeOk(t: Tree) {
    50 <= t.branchWidth <= 1009 && 100 <= t.treeSize <= 599 && t.treeType <= 1
  }

  /**
   * A re-roll from three non-negative `rand()` results: each parameter lands
   * in its range, whatever the draws.
   */
  function Reroll(r1: nat, r2: nat, r3: nat): (t: Tree)
    ensures TreeOk(t)
    ensures t.branchWidth / 2 >= 25
  {
    Tree((r1 % (1920 / 2) + 50) as uint16, (r2 % (1000 / 2) + 100) as uint16, (r3 % 2) as uint16)
  }

  /** Every tree in range is the re-roll of some draws: the ranges are exact. */
  lemma RerollCovers(t: Tree)
    requires TreeOk(t)
    ensures Reroll(t.branchWidth as nat - 50, t.treeSize as nat - 100, t.treeType as nat) == t
  {
    DivModBy(t.branchWidth as nat - 50, 960, 0, t.branchWidth as nat - 50);
    DivModBy(t.treeSize as nat - 100, 500, 0, t.treeSize as nat - 100);
    DivModBy(t.treeType as nat, 2, 0, t.treeType as nat);
  }

  /**
   * The scan row after one frame: `currentRow -= 5` on a `uint16_t` while
   * positive (wrapping modulo `2^16`), back to 1000 at zero.
   */
  function NextRow(row: uint16): (r: uint16)
    ensures row > 0 ==> (r as int + RowStep) % 0x1_0000 == row as int
    ensures row == 0 ==> r == RowStart
  {
    if row > 0 then ((row as int - RowStep) % 0x1_0000) as uint16 else RowStart
  }

  /** The rows the animation can show: multiples of 5 from 0 to 1000. */
  predicate RowOk(row: uint16) {
    row as int % RowStep == 0 && row <= RowStart
  }

  /**
   * A row in range stays in range, and a positive one drops by exactly 5:
   * the subtraction never wraps.
   */
  lemma NextRowOk(row: uint16)
    requires RowOk(row)
    ensures RowOk(NextRow(row))
    ensures row > 0 ==> NextRow(row) as int == row as int - RowStep
    ensures row == 0 ==> NextRow(row) == RowStart
  {
  }

  /** A row off the multiples of 5 would wrap: 3 becomes 65534. */
  lemma UnalignedRowWraps()
    ensures NextRow(3) == 65534
  {
  }

  /** The scan row after `n` frames from start-up. */
  function RowAfter(n: nat): uint16 {
    if n == 0 then RowStart else NextRow(RowAfter(n - 1))
  }

  /**
   * The scan row counts down from 1000 in steps of 5 and starts again after
   * reaching 0: after `n` frames it is `1000 - 5 * (n % 201)`.
   */
  lemma {:induction false} RowCountdown(n: nat)
    ensures RowAfter(n) as int == 1000 - RowStep * (n % 201)
  {
    if n > 0 {
      RowCountdown(n - 1);
      NextRowOk(RowAfter(n - 1));
      var q, m := (n - 1) / 201, (n - 1) % 201;
      if m == 200 {
        DivModBy(n, 201, q + 1, 0);
      } else {
        DivModBy(n, 201, q, m + 1);
      }
    }
  }

  /** The animation repeats every 201 frames. */
  lemma RowPeriod(n: nat)
    ensures RowAfter(n + 201) == RowAfter(n)
  {
    RowCountdown(n);
    RowCountdown(n + 201);
    DivModBy(n + 201, 201, n / 201 + 1, n % 201);
  }

  /** The row is 0, and the tree is re-rolled on the next frame, exactly on frames `200 + 201 * m`. */
  lemma RowZeroIff(n: nat)
    ensures RowAfter(n) == 0 <==> n % 201 == 200
  {
    RowCountdown(n);
  }

  /** `uint8_t` increment: 255 wraps to 0. */
  function Inc8(x: uint8): (r: uint8)
    ensures r as int == (x as int + 1) % 0x100
  {
    if x == 0xFF then 0 else x + 1
  }

  /** A counter that counts up to `cap` and then holds. */
  function Saturate(x: uint16, cap: uint16): (r: uint16)
    ensures x <= r && r as int <= x as int + 1
    ensures x <= cap ==> r <= cap
    ensures r == x <==> x >= cap
  {
    if x < cap then x + 1 else x
  }

  /** `n` increments of a `uint8_t` from `x` give `(x + n) % 256`. */
  function Incs8(x: uint8, n: nat): uint8 {
    if n == 0 then x else Inc8(Incs8(x, n - 1))
  }

  lemma {:induction false} Incs8Wraps(x: uint8, n: nat)
    ensures Incs8(x, n) as int == (x as int + n) % 0x100
  {
    if n == 0 {
      DivModBy(x as int, 0x100, 0, x as int);
    } else {
      var y := Incs8(x, n - 1);
      Incs8Wraps(x, n - 1);
      Inc8Step(x as int + n - 1, y);
      assert Incs8(x, n) == Inc8(y);
    }
  }

  /** One increment of a counter that holds `s % 256` gives `(s + 1) % 256`. */
  lemma Inc8Step(s: nat, y: uint8)
    requires y as int == s % 0x100
    ensures Inc8(y) as int == (s + 1) % 0x100
  {
    var q := s / 0x100;
    if y == 0xFF {
      DivModBy(s + 1, 0x100, q + 1, 0);
    } else {
      DivModBy(s + 1, 0x100, q, y as int + 1);
    }
  }

  /** `n` saturating increments from `x` give `min(x + n, cap)`. */
  function Saturates(x: uint16, cap: uint16, n: nat): uint16 {
    if n == 0 then x else Saturate(Saturates(x, cap, n - 1), cap)
  }

  lemma {:induction false} SaturatesAtCap(x: uint16, cap: uint16, n: nat)
    requires x <= cap
    ensures Saturates(x, cap, n) as int == if x as int + n < cap as int then x as int + n else cap as int
  {
    if n > 0 {
      SaturatesAtCap(x, cap, n - 1);
    }
  }

  /** A fresh frame buffer: `ftruncate` zero-fills the shared memory. */
  function Blank(): (s: seq<uint32>)
    ensures |s| == FrameWidth * FrameHeight
    ensures forall k :: 0 <= k < |s| ==> s[k] == 0
  {
    seq(FrameWidth * FrameHeight, _ => 0)
  }

  /** The first trunk write of `draw_tree` as written: one row below the frame. */
  const ClassicOverrun: int := FrameWidth * FrameHeight + FrameWidth / 2

  /** The pixel at `k` of a classic tree, as `draw_tree` writes it, on a blank frame. */
  ghost function ClassicPixel(t: Tree, k: int): uint32
    requires TreeOk(t)
  {
    ClassicTree.AsWrittenPixel(FrameWidth, FrameHeight, t.branchWidth as nat, k, 0)
  }

  /** The pixel at `k` of the classic tree as intended, with the whole trunk inside the frame. */
  ghost function IntendedClassicPixel(t: Tree, k: int): uint32
    requires TreeOk(t)
  {
    if k in ClassicTree.BranchCells(ClassicTree.TreeAnchor(FrameWidth, FrameHeight), FrameWidth, t.branchWidth as nat / 2)
    then BranchColor
    else if k in ClassicTree.TrunkCells(FrameWidth, FrameHeight) then TrunkColor
    else 0
  }

  /**
   * With the stray store refused, the overrun of the classic trunk loses
   * nothing on screen: every pixel of the frame is the one the intended tree
   * has. In C the store lands 3840 bytes past the mapping and may fault
   * before the frame is shown.
   */
  lemma ClassicFrameAsIntended(t: Tree)
    requires TreeOk(t)
    ensures forall k :: InStore(k, FrameWidth * FrameHeight) ==> ClassicPixel(t, k) == IntendedClassicPixel(t, k)
  {
    var b := t.branchWidth as nat / 2;
    assert ClassicTree.TreeAnchor(FrameWidth, FrameHeight) == 1440960;
    ClassicTree.TrunksAgreeInStore(FrameWidth, FrameHeight, b);
  }

  /** The writes of a tapering tree drawn from the bottom centre. */
  ghost function TaperFrame(t: Tree, dy: int -> int): seq<Write> {
    TaperingTree.TaperPlan(TaperAnchor, FrameWidth, t.treeSize as nat, t.branchWidth as nat, dy)
  }

  /**
   * What a frame shows for tree `t`: kind 0 is the classic tree, every other
   * kind the tapering tree, painted over a blank buffer, with the first
   * refused write reported.
   */
  ghost predicate Shows(pixels: seq<uint32>, outcome: Outcome, t: Tree, dy: int -> int)
    requires TreeOk(t)
  {
    |pixels| == FrameWidth * FrameHeight &&
    if t.treeType == 0 then
      outcome == OutOfBounds(ClassicOverrun) && forall k :: 0 <= k < |pixels| ==> pixels[k] == ClassicPixel(t, k)
    else
      pixels == Paint(Blank(), TaperFrame(t, dy)) && outcome == FirstFault(TaperFrame(t, dy), |pixels|)
  }

  /** Every trunk pixel of the tapering tree lies inside the frame; only arcs can fall outside it. */
  lemma TaperTrunkInFrame(t: Tree, dy: int -> int)
    ensures forall j :: 0 <= j < |TaperFrame(t, dy)| && TaperFrame(t, dy)[j].color == TrunkColor ==>
      InStore(TaperFrame(t, dy)[j].index, FrameWidth * FrameHeight)
  {
    TaperingTree.PlanTrunkInStore(TaperAnchor, FrameWidth, t.treeSize as nat, t.branchWidth as nat, dy);
  }

  /** A tapering frame holds only the blank, brown and green pixels. */
  lemma TaperFrameColours(t: Tree, dy: int -> int)
    ensures forall k :: 0 <= k < FrameWidth * FrameHeight ==>
      Paint(Blank(), TaperFrame(t, dy))[k] in {0, TrunkColor, BranchColor}
  {
    var plan := TaperFrame(t, dy);
    var s := Paint(Blank(), plan);
    PaintOnlyHits(Blank(), plan);
    TaperingTree.PlanTrunkInStore(TaperAnchor, FrameWidth, t.treeSize as nat, t.branchWidth as nat, dy);
    forall k | 0 <= k < FrameWidth * FrameHeight
      ensures s[k] in {0, TrunkColor, BranchColor}
    {
      if s[k] != Blank()[k] {
        var j :| 0 <= j < |plan| && plan[j] == Write(k, s[k]);
        assert plan[j].color == s[k];
      }
    }
  }

  /**
   * `draw_frame`: a fresh zeroed buffer of 1920x1000 pixels with the classic
   * tree (`tree_type == 0`, trunk loop as written, so its first write is
   * refused and reported) or the tapering tree drawn into it.
   */
  method DrawFrame(t: Tree, dy: int -> int) returns (pixels: array<uint32>, outcome: Outcome)
    requires TreeOk(t)
    ensures fresh(pixels)
    ensures Shows(pixels[..], outcome, t, dy)
  {
    pixels := new uint32[FrameWidth * FrameHeight](_ => 0);
    assert pixels[..] == Blank();
    if t.treeType == 0 {
      outcome := ClassicTree.DrawTreeAsWritten(pixels, FrameWidth, FrameHeight, t.branchWidth as nat);
      assert outcome == OutOfBounds(ClassicOverrun);
      assert forall k :: 0 <= k < pixels.Length ==> pixels[k] == ClassicPixel(t, k);
    } else {
      outcome := TaperingTree.DrawTreeNew(pixels, TaperAnchor, FrameWidth, t.treeSize as nat, t.branchWidth as nat, dy);
    }
  }

  /**
   * The part of `struct client_state` the animation uses: the frame
   * counters, the scan row and the tree on screen.
   */
  class ClientState {
    var offset: uint8
    var lastFrame: uint32
    var heightRender: uint16
    var widthRender: uint16
    var currentRow: uint16
    var tree: Tree

    /** The state every frame keeps: row and tree in range, counters at most their caps. */
    ghost predicate Valid()
      reads this
    {
      RowOk(currentRow) && TreeOk(tree) && heightRender <= 1000 && widthRender <= 1920
    }

    /** `main`: row 1000, counters and clock at zero, a first tree from three draws. */
    constructor(r1: nat, r2: nat, r3: nat)
      ensures Valid()
      ensures currentRow == RowStart && offset == 0 && lastFrame == 0
      ensures heightRender == 0 && widthRender == 0
      ensures tree == Reroll(r1, r2, r3)
    {
      offset := 0;
      lastFrame := 0;
      heightRender := 0;
      widthRender := 0;
      currentRow := RowStart;
      tree := Reroll(r1, r2, r3);
    }

    /**
     * `wl_surface_frame_done`: after the first frame the counters advance
     * (the offset wraps, the render sizes saturate at 1000 and 1920); the
     * scan row moves up 5 or, at 0, starts again at 1000 with a re-rolled
     * tree; the frame is drawn from the updated state; the damage is the
     * updated row; the clock's seconds are kept, truncated to 32 bits.
     */
    method Tick(nowSeconds: int, r1: nat, r2: nat, r3: nat, dy: int -> int)
      returns (frame: array<uint32>, outcome: Outcome, damage: Rect)
      requires Valid()
      modifies this
      ensures Valid()
      ensures offset == if old(lastFrame) != 0 then Inc8(old(offset)) else old(offset)
      ensures heightRender == if old(lastFrame) != 0 then Saturate(old(heightRender), 1000) else old(heightRender)
      ensures widthRender == if old(lastFrame) != 0 then Saturate(old(widthRender), 1920) else old(widthRender)
      ensures currentRow == NextRow(old(currentRow))
      ensures tree == if old(currentRow) > 0 then old(tree) else Reroll(r1, r2, r3)
      ensures fresh(frame) && Shows(frame[..], outcome, tree, dy)
      ensures damage == Rect(0, currentRow as int, FrameWidth, 1)
      ensures lastFrame as int == nowSeconds % 0x1_0000_0000
    {
      if lastFrame != 0 {
        offset := Inc8(offset);
        if heightRender < 1000 {
          heightRender := heightRender + 1;
        }
        if widthRender < 1920 {
          widthRender := widthRender + 1;
        }
      }
      NextRowOk(currentRow);
      if currentRow > 0 {
        currentRow := NextRow(currentRow);
      } else {
        currentRow := RowStart;
        tree := Reroll(r1, r2, r3);
      }
      frame, outcome := DrawFrame(tree, dy);
      damage := Rect(0, currentRow as int, FrameWidth, 1);
      lastFrame := (nowSeconds % 0x1_0000_0000) as uint32;
    }
  }
}
