# regrow: a verified model of the tree renderer and its frame loop

regrow is a small Wayland client. On every frame callback it advances a
scan row and draws a procedurally generated tree into a fresh 1920x1000
shared-memory pixel buffer. There are two renderers:

- the classic tree: a vertical trunk with a binary recursion of 45-degree
  branch arms;
- the tapering tree: a trunk and a pair of sine-shaped arcs, repeated from
  the trunk's tip with a trunk 20% shorter and arcs half as wide.

The tree's kind and sizes are re-rolled each time the scan row returns to
the top. The shared-memory file behind each buffer gets a six-letter name
derived from the real-time clock.

The model is split into five modules:

- `Pixels` (`pixels.dfy`): the flat pixel store, addressed as
  `x + y * width`, and the two colours. Every store the renderers issue is
  a `Write`. `Paint` applies a sequence of writes with bounds checks, and
  `FirstFault` reports the first write that falls outside the store. `Put`
  is a bounds-checked array store: an out-of-range write is refused and
  reported, and drawing continues. It is used only where an index can fall
  outside the buffer: the trunk loop of `draw_tree` as written and the arc
  loop of `draw_tree_new`. Every other loop (`draw_branches`, the corrected
  trunk loop, the tapering trunk loop and `randname`) stores directly into
  its array, and the model proves each index in range.
- `ClassicTree` (`classic_tree.dfy`): `draw_branches` and `draw_tree` as
  methods over an `array<uint32>`. Each is proved to paint exactly the
  cells of a ghost set and to leave every other cell unchanged. The trunk
  loop exists in two versions: as written, and corrected (see
  "## Findings").
- `TaperingTree` (`tapering_tree.dfy`): `draw_tree_new` as a recursive
  method. It is proved to leave the array equal to `Paint` of its whole
  write plan (`TaperPlan`), and its outcome is the plan's first fault.
  Lemmas cover the shrinking sizes, the guard, the logarithmic recursion
  depth and the trunk bounds.
- `Animation` (`animation.dfy`):
  - `draw_frame`'s dispatch between the two renderers;
  - the `client_state` fields that `wl_surface_frame_done` updates, as a
    class with a `Tick` method;
  - start-up per `main`;
  - the scan row's 201-frame cycle, the counters' wrap and saturation, and
    the re-roll ranges.
- `ShmName` (`shm_name.dfy`): `randname` writing six letters in place, and
  the name `create_shm_file` builds from the template `"/wl_shm-XXXXXX"`.

Randomness (`rand()`), the clock (`clock_gettime`) and the sine in the
arcs (`dy`) are parameters.

C integer widths are written out where they matter:

- `offset` is a `uint8_t` and wraps;
- `currentRow` is a `uint16_t` and its `-= 5` wraps modulo 2^16;
- `last_frame` keeps the clock's seconds modulo 2^32.

Pixel indices are `int` in C. They stay below 2^21 for a 1920x1000 frame,
so they are modelled as unbounded integers.

The frame loop of regrow.c has no concealing phase and no `isDrawing` flag.
`currentRow` only counts down by 5, and at 0 it resets to 1000 with a
re-roll. The counters advance whenever `last_frame != 0`. Every frame draws
a fresh buffer.

## Model

| member | source | states |
|---|---|---|
| Pixels.Put | regrow.c:155 | A store `data[k] = c` lands exactly when `0 <= k < length`. Otherwise it is refused and reported. The array afterwards is `Paint` of that one write, and no other cell changes. |
| Pixels.FirstFaultMeaning | regrow.c:130-133 | A pass reports `Drawn` exactly when every write lies in the store. Otherwise it reports an out-of-store index that one of its writes uses. |
| Pixels.PaintAppend | regrow.c:126-136 | A drawing pass split in two (trunk loop, then arc loop, then recursion) paints and reports the same as the whole pass. |
| Pixels.PaintOnlyHits | regrow.c:131-132 | A painted cell changes only to a colour that some write stores at that cell. |
| ClassicTree.ChildAnchors | regrow.c:146-147 | The two child anchors are `2*b` apart. With `b >= 1` and `width > 1`, both lie strictly before `position`, so the recursion terminates. With `b == 0`, both equal `position`. |
| ClassicTree.ArmCells | regrow.c:142-145 | The arms of a level with at least one step include the anchor cell `position` itself (step `i == 0`). |
| ClassicTree.BranchCells | regrow.c:140-149 | When the guard `position > width*b` holds, the painted cells include `position`. When it fails, nothing is painted. |
| ClassicTree.ArmCellBounds | regrow.c:142-144 | Under the guard `position > width*b`, both cells of arm `i < b` lie in `(0, position]`. |
| ClassicTree.ArmCellsInStore | regrow.c:142-145 | Every arm cell of one recursion level lies in `(0, position]`. |
| ClassicTree.BranchCellsInStore | regrow.c:140-149 | Every cell the whole `draw_branches` recursion paints lies in `(0, position]`. |
| ClassicTree.DrawBranches | regrow.c:140-149 | Exactly the cells of `BranchCells` become `0xFF00FF00`. Every other cell keeps its value. |
| ClassicTree.TrunkRowInStore | regrow.c:155 | The centre-column cell of row `i` lies in a `width*height` store exactly when `0 <= i < height`. |
| ClassicTree.TreeAnchor | regrow.c:152 | The anchor `width/2 + width*(height - height/4)` lies inside a `width*height` store whenever `width >= 1` and `height >= 4`. |
| ClassicTree.ColumnCellsInStore | regrow.c:154-155 | Centre-column cells of rows `r0` up to `r1 - 1`, with `0 <= r0` and `r1 <= height`, lie inside the store. |
| ClassicTree.TrunkCellsInStore | regrow.c:152-156 | The corrected trunk (rows `height-1` down to `height - height/4`) lies inside the store and contains the branch anchor. |
| ClassicTree.TrunkAsWrittenOverruns | regrow.c:154-155 | The trunk loop as written includes the cell `width*height + width/2`, which lies outside the store. All its other cells lie inside. |
| ClassicTree.TrunksAgreeInStore | regrow.c:152-157 | Inside the store, the as-written and the corrected trunk, each with the branches on top, cover the same cells. Off the branch cells, the two trunks agree cell by cell, so inside the store they differ only where the branches paint green anyway. |
| ClassicTree.DrawTreeAsWritten | regrow.c:151-158 | `draw_tree` as written reports the overrun at `width*height + width/2`. The rest of the trunk becomes `0xFFA52A2A`, then the branch cells become green, and nothing else changes. |
| ClassicTree.DrawTree | regrow.c:151-158 | Corrected `draw_tree`: the trunk cells become brown and then the branch cells green; nothing else changes. |
| TaperingTree.Shrink | regrow.c:134-135 | The next level keeps between 4/5 of the trunk and all of it, and strictly less once the trunk is 5 or more. It halves the arc width, rounding down, which is strictly less once the width is at least 1. |
| TaperingTree.Continues | regrow.c:125 | When the guard holds, both sizes are at least 21 and the trunk tip `position - width*treeSize` is positive. |
| TaperingTree.TrunkWrites | regrow.c:126-129 | The trunk loop issues `n` writes; write `k` is brown at `position - width*k`, so one per row going up. |
| TaperingTree.ArcWrites | regrow.c:130-133 | The arc loop issues `2*branchWidth` writes, all of colour `0xFF00FF00`. |
| TaperingTree.TaperPlan | regrow.c:124-138 | The pass writes nothing exactly when the guard fails. Otherwise it issues at least `treeSize + 2*branchWidth` writes, and the first `treeSize` of them are the trunk. |
| TaperingTree.LevelsOfPlan | regrow.c:124-138 | The recursion draws no level exactly when the pass writes nothing, and each level adds at least 63 writes: a trunk of at least 21 and 42 arc writes. |
| TaperingTree.LevelsLogarithmic | regrow.c:125-136 | `n >= 1` recursion levels need `branchWidth >= 21 * 2^(n-1)`, so the depth is at most about `log2(branchWidth)`. |
| TaperingTree.StopsAtThreshold | regrow.c:125 | With `treeSize <= 20` or `branchWidth <= 20` there are no writes and no recursion. |
| TaperingTree.LevelsOfExample | regrow.c:125-136 | Sizes 100 and 50 give at most two levels, wherever the anchor is. |
| TaperingTree.TrunkInStore | regrow.c:125-129 | Under the guard, every trunk cell `position - width*k` is positive and at most `position`, and the loop ends exactly `width*treeSize` lower. |
| TaperingTree.ArcLiftInStore | regrow.c:125-132 | Under the guard, with `-50 <= dy <= 50`, the arc row `tip - width*dy(i)` stays positive. |
| TaperingTree.PlanTrunkInStore | regrow.c:124-138 | Every write of the whole recursion is either green or a brown trunk write in `(0, position]`. |
| TaperingTree.FaultIsArc | regrow.c:124-138 | If the pass reports an out-of-store write, a green arc write caused it. |
| TaperingTree.DrawTrunk | regrow.c:126-129 | The trunk loop paints its `treeSize` cells straight up, all inside the store, and returns `position - width*treeSize`. |
| TaperingTree.DrawArcs | regrow.c:130-133 | The arc loop leaves the array as `Paint` of the arc writes, and its outcome is their first fault. |
| TaperingTree.DrawTreeNew | regrow.c:124-138 | The array ends as `Paint` of the whole plan, and the outcome is the plan's first out-of-store write. |
| Animation.Reroll | regrow.c:293-295 | Re-rolled parameters lie in `branch_width` [50, 1009], `tree_size` [100, 599] and `tree_type` {0, 1}. So `draw_tree` gets `branch_width/2 >= 25`. |
| Animation.RerollCovers | regrow.c:321-323 | Every parameter triple in those ranges is the re-roll of some draws, so the ranges are exact. |
| Animation.NextRow | regrow.c:289-292 | A positive row is what a `uint16_t` subtraction of 5 gives: adding 5 back modulo 2^16 restores it. Row 0 becomes 1000. |
| Animation.NextRowOk | regrow.c:289-292 | A row that is a multiple of 5 in [0, 1000] stays one. A positive row drops by exactly 5 without wrapping. 0 resets to 1000. |
| Animation.UnalignedRowWraps | regrow.c:290 | The `uint16_t` subtraction wraps on a row that is not a multiple of 5: 3 becomes 65534. |
| Animation.RowCountdown | regrow.c:289-292 | After `n` frames from 1000, the row is `1000 - 5*(n % 201)`. |
| Animation.RowPeriod | regrow.c:289-292 | The row repeats every 201 frames. |
| Animation.RowZeroIff | regrow.c:289-295 | The row is 0, so the next frame re-rolls the tree, exactly on frames `200 + 201*m`. |
| Animation.Inc8 | regrow.c:283 | `offset++` on a `uint8_t` is C's conversion of `offset + 1` to 8 bits: `(offset + 1) % 256`. |
| Animation.Saturate | regrow.c:284-287 | A guarded increment adds at most 1, never passes a cap it starts below, and leaves the counter unchanged exactly when it is at or above the cap. |
| Animation.Incs8Wraps | regrow.c:283 | `n` increments of the `uint8_t` offset give `(offset + n) % 256`. |
| Animation.SaturatesAtCap | regrow.c:284-287 | `n` guarded increments of a render counter give `min(x + n, cap)`. |
| Animation.ClassicFrameAsIntended | regrow.c:184 | With the stray store refused, the classic frame drawn with the overrunning trunk loop shows, pixel by pixel, exactly the intended tree, whose trunk ends at the branch anchor. |
| Animation.TaperTrunkInFrame | regrow.c:187 | Drawn from the bottom centre of the frame, every brown write of the tapering tree lies inside the buffer. |
| Animation.TaperFrameColours | regrow.c:187 | Every pixel of a tapering frame is 0, brown `0xFFA52A2A` or green `0xFF00FF00`. |
| Animation.DrawFrame | regrow.c:182-188 | A fresh zeroed 1920x1000 buffer. For `tree_type == 0` it holds the classic tree drawn by `draw_tree` as written, and the overrun at index 1920960 is reported. Otherwise it holds the tapering tree from `width/2 + width*(height-1)`, with the first out-of-buffer arc write reported. |
| Animation.ClientState.constructor | regrow.c:316-323 | Start-up: row 1000, counters and clock 0, first tree from three draws. |
| Animation.ClientState.Tick | regrow.c:282-303 | After the first frame the counters advance: the offset wraps and the render sizes saturate at 1000 and 1920. The row drops by 5, or at 0 resets with a re-rolled tree. The frame shows the updated tree. The damage is `(0, currentRow, 1920, 1)` with the updated row. The seconds are kept modulo 2^32. The invariant is preserved. |
| ShmName.Shifted | regrow.c:44 | Each `r >>= 2` never increases the reading, and after at least one shift the reading is at most a quarter of the original. |
| ShmName.Letters | regrow.c:42-45 | Six letters, each in `'A'..'P'` or `'a'..'p'`. |
| ShmName.Letter | regrow.c:43 | Each character lies in `'A'..'P'` or `'a'..'p'`, and it is lower case exactly when bit 4 of `r` is set. |
| ShmName.LetterInjective | regrow.c:43 | Two characters are equal exactly when the five low bits of their readings are. |
| ShmName.LettersIdentify | regrow.c:42-45 | Two clock readings give the same six letters exactly when they agree modulo 2^15. |
| ShmName.RandName | regrow.c:38-46 | The six letters for the reading go into `buf[start..start+6]`, the reading shifting right by 2 after each. No other cell changes. |
| ShmName.ShmFileName | regrow.c:51-52 | The name keeps the `"/wl_shm-"` prefix and the NUL terminator. Its letters at positions 8 to 13 are those of the reading, each in `'A'..'P'` or `'a'..'p'`. |

## Left out

- Wayland protocol plumbing is out of the model: the registry, `xdg_wm_base`, the configure and ping handlers, attach/damage/commit, frame callback registration, buffer release, and the connect and dispatch loop in `main`. `Tick` returns the damage rectangle instead of calling `wl_surface_damage_buffer`.
- The system calls behind a buffer are out of the model: `shm_open`, `shm_unlink`, `ftruncate`, `mmap`, `munmap` and `close`. So is the retry loop of `create_shm_file` on `EEXIST`. A fresh buffer is a zeroed array, which is what a freshly truncated shared-memory file holds.
- `clock_gettime`, `time`, `srand` and `rand` are parameters. `rand()` results are non-negative, as in C.
- `sin` in the arc offsets is floating point. It is the parameter `dy`.
- TaperingTree.DrawArcs: arc writes are not proved to lie in the store. The guard ignores the horizontal shift `-i` and does not bound negative `dy`, so the model reports the first refused arc write instead.
- Out-of-range stores are undefined behaviour in C. The model refuses them and reports the first one, and drawing continues.
- The commented-out colour-bar loop in `draw_frame` is out of the model. So are its unused `position`, `bar_size` and `offset` locals, and the unused `height` parameters of `draw_tree_new` and `draw_branches`.
- ShmName.Letter: the bit operations `r & 15`, `r & 16` and `r >>= 2` on the non-negative `long` are stated as `r % 16`, `16 * (r / 16 % 2)` and `r / 4`. These are equal for non-negative values.
- Pixels.Put: a store outside the buffer is refused rather than overwriting memory beyond it.
- Running time is out of the model. `draw_branches` reuses the same `branch_size` at every level, so it revisits cells exponentially often. The model only states which cells end up painted.

## Findings

| source | as written | input that shows it | evidently intended | confidence | as-written member | corrected member |
|---|---|---|---|---|---|---|
| regrow.c:154-155 | The trunk loop runs `i` from `height` down to `height - height/4 + 1`, writing `data[width/2 + width*i]`. | `draw_frame` with `tree_type == 0` on the 1920x1000 buffer: the first write is at index `1920*1000 + 960 = 1920960`, past the 1920000 pixels of the buffer. | Rows `height - 1` down to `height - height/4`, ending at the branch anchor. | not executed | ClassicTree.DrawTreeAsWritten | ClassicTree.DrawTree |

`DrawFrame` keeps the loop as written and reports the overrun.
`ClassicTree.TrunksAgreeInStore` and `Animation.ClassicFrameAsIntended`
prove that, with the stray store refused, the overrun changes nothing on
screen: inside the buffer, the frame is exactly the one the corrected
`DrawTree` paints. In C the store is undefined behaviour (see "## Left
out"). Index 1920960 is byte 7683840, and the 7680000-byte mapping is
exactly 1875 pages, so the store lands 3840 bytes into the next page. It
may fault before the frame is shown, or overwrite another mapping.
