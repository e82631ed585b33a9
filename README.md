# PuzzleKit core in Dafny

PuzzleKit is an iOS component for an image puzzle. A picture is cut into an N×N grid of tiles, the
tiles are shuffled, and the player drags one tile onto another to swap them. Each tile has a fixed
`correctIndex`, the slot it belongs in, and a mutable `currentIndex`, the slot it occupies now. A
tile is *locked* when the two agree. The puzzle is complete when every tile is locked.

This project models the logical engine of the component and proves properties about it:

- `Tiles`: the tile (`PuzzleTile`). It is a class, because the view model writes `currentIndex`
  through references and the view moves its frame. `IsLocked` is computed from the two indices on
  every read.
- `Model`: the grid (`PuzzleViewModel`). Its `tiles` array is a `seq<Tile>` that the methods
  reassign. The module covers the guarded swap, the completion test, the full shuffle that repeats
  until no tile is locked, and the shuffle of the unlocked tiles only.
- `UnlockedShuffle`: the loop of the unlocked-tile shuffle replayed on values, a pass at a time.
  It is run under two lock tests: the one the source uses (`LiveLock`) and a corrected one
  (`EntryLock`). The lemmas about the loop are stated over this replay.
- `Geometry`: rectangles over the reals and the area of their intersection, as the drag-target
  resolver uses them.
- `Grid`: Swift's truncating `Int` division and remainder, and the slot ↔ (row, column)
  arithmetic of tile set-up and layout. It also gives the frame of a cell and shows that the
  frames of different slots do not overlap.
- `View`: the controller logic of `PuzzleView`. This is the drag-target resolver, the view's swap
  by tile identity, the pan handler's guards and its end-of-drag sequence (resolve, swap, lay out,
  latch the completion flag), the resets of that flag, and tile set-up and layout.

Randomness is a nondeterministic choice of permutation (`:|`). The image and its cropping are
inputs: `decoded` says whether the image yields a bitmap, and `cropped` says which cells crop
successfully.

The unlocked-tile shuffle (`shuffleUnlockedTiles`, documented at
Sources/PuzzleKit/PuzzleViewModel.swift:58 as shuffling the unlocked tiles only) is meant to write
the shuffled tiles back into the slots that held unlocked tiles. The code decides which slots to refill by the lock state it reads while the
loop runs. It can therefore skip an unlocked slot and lose a tile (see Findings). The view model
has both versions: `ShuffleUnlockedTilesAsWritten` follows the code, and `ShuffleUnlockedTiles`
is the corrected one. The view's partial shuffle calls the corrected one, so what it promises
does not hold of the source as written (see Left out).

## Model

| member | source | states |
|---|---|---|
| Tiles.Tile.constructor | Sources/PuzzleKit/PuzzleTile.swift:16-35 | both indices are stored unchanged and the frame starts at zero; the new tile is locked exactly when the two given indices are equal |
| Tiles.Tile.IsLocked | Sources/PuzzleKit/PuzzleTile.swift:12-14 | a tile is locked exactly when its current slot is its correct slot; it is read from the two indices each time and never stored |
| Tiles.DistinctPermutation | Sources/PuzzleKit/PuzzleViewModel.swift:50 | rearranging a sequence of distinct tile references keeps them distinct |
| Tiles.DistinctIffSingleCounts | Sources/PuzzleKit/PuzzleViewModel.swift:50 | a sequence holds each object at most once exactly when no element of its multiset is repeated |
| Geometry.Width | Sources/PuzzleKit/PuzzleView.swift:338 | a rectangle's reported width is never negative |
| Geometry.Height | Sources/PuzzleKit/PuzzleView.swift:338 | a rectangle's reported height is never negative |
| Geometry.Overlap | Sources/PuzzleKit/PuzzleView.swift:343-344 | the overlap of two intervals is non-negative and no longer than either interval; intervals that lie apart or only touch overlap by 0; an interval inside another overlaps it by its whole length |
| Geometry.IntersectionArea | Sources/PuzzleKit/PuzzleView.swift:343-344 | the overlap area is non-negative and at most the area of either rectangle; frames that lie apart or only touch along either axis (a null or empty intersection) give 0; a frame inside another overlaps it by its whole area |
| Geometry.SelfIntersection | Sources/PuzzleKit/PuzzleView.swift:343-344 | a frame overlaps itself by its whole area |
| Geometry.IntersectionSymmetric | Sources/PuzzleKit/PuzzleView.swift:343-344 | the overlap area does not depend on which frame is the moved one |
| Grid.Quot | Sources/PuzzleKit/PuzzleView.swift:278 | Swift's `/` on `Int`, which truncates toward zero: the quotient's magnitude is the dividend's magnitude divided by the divisor's, and a non-zero quotient is negative exactly when dividend and divisor have different signs |
| Grid.Rem | Sources/PuzzleKit/PuzzleView.swift:279 | Swift's `%` on `Int`: quotient times divisor plus remainder gives back the dividend, the remainder is smaller than the divisor in magnitude, and a non-zero remainder has the dividend's sign |
| Grid.SwiftOpsOnNatural | Sources/PuzzleKit/PuzzleView.swift:278-279 | on a non-negative slot and a positive grid size, Swift's `/` and `%` agree with Euclidean division |
| Grid.DivModUnique | Sources/PuzzleKit/PuzzleView.swift:278-279 | the quotient and remainder are the only pair with `a == q*b + r` and `0 <= r < b` |
| Grid.Cell | Sources/PuzzleKit/PuzzleView.swift:277-279 | the (row, col) that layout computes from a slot recombines to that slot, and the column of a non-negative slot lies within the grid |
| Grid.CellOfIndex | Sources/PuzzleKit/PuzzleView.swift:232-279 | the row-major number a cell gets at set-up is mapped back by layout to that same (row, col) |
| Grid.CellInGrid | Sources/PuzzleKit/PuzzleView.swift:234-279 | a non-negative slot lies on a row at or below the first, and it is below gridSize² exactly when its row is inside the grid |
| Grid.CellInjective | Sources/PuzzleKit/PuzzleView.swift:277-279 | different slots get different cells |
| Grid.LatticeCellsApart | Sources/PuzzleKit/PuzzleView.swift:282-287 | two tile-sized cells at different (column, row) positions overlap by nothing |
| Grid.CellFrame | Sources/PuzzleKit/PuzzleView.swift:273-287 | with a positive grid size, g cells of the layout's tile width and height span exactly the view's width and height |
| Grid.CellInView | Sources/PuzzleKit/PuzzleView.swift:273-287 | the frame layout gives any slot from 0 to gridSize² − 1 lies inside the view's bounds |
| Grid.StripInside | Sources/PuzzleKit/PuzzleView.swift:273-287 | column (or row) c of g equal strips, placed at c times the strip width, lies within the length being split |
| Grid.CellFramesDisjoint | Sources/PuzzleKit/PuzzleView.swift:273-287 | the frames layout gives two different non-negative slots have zero overlap area |
| UnlockedShuffle.Snapshot | Sources/PuzzleKit/PuzzleViewModel.swift:59-60 | the recorded indices are exactly the current indices of the tiles in the grid, so the lock test against the record agrees with `isLocked` for every tile of the grid on entry |
| UnlockedShuffle.Unlocked | Sources/PuzzleKit/PuzzleViewModel.swift:60 | the filter is no longer than the grid |
| UnlockedShuffle.UnlockedMembers | Sources/PuzzleKit/PuzzleViewModel.swift:60 | the filter keeps only tiles of the grid, and only unlocked ones |
| UnlockedShuffle.UnlockedDistinct | Sources/PuzzleKit/PuzzleViewModel.swift:60 | filtering distinct tiles gives distinct tiles |
| UnlockedShuffle.UnlockedStep | Sources/PuzzleKit/PuzzleViewModel.swift:60 | the filter of a longer prefix adds the next tile exactly when that tile is unlocked |
| UnlockedShuffle.UnlockedPrefixBound | Sources/PuzzleKit/PuzzleViewModel.swift:60-69 | the unlocked tiles of any prefix are no more than the unlocked tiles of the grid |
| UnlockedShuffle.Run | Sources/PuzzleKit/PuzzleViewModel.swift:63-71 | under either lock test, the counter `idx` never passes the number of unlocked tiles, so `unlocked[idx]` is always in bounds; every slot not yet visited keeps its tile, and such a tile that was locked on entry keeps its index |
| UnlockedShuffle.RunNext | Sources/PuzzleKit/PuzzleViewModel.swift:64-70 | each visit either keeps the pass or writes `order[idx]` to slot i, records i as its index and advances `idx` |
| UnlockedShuffle.RunRecords | Sources/PuzzleKit/PuzzleViewModel.swift:64-70 | every tile in the slots has a recorded current index throughout the loop |
| UnlockedShuffle.ShuffledFromSlots | Sources/PuzzleKit/PuzzleViewModel.swift:60-61 | every tile of the shuffled list comes from the grid and was unlocked on entry |
| UnlockedShuffle.SyncedIsDistinct | Sources/PuzzleKit/PuzzleViewModel.swift:59-72 | a grid whose every tile records its own slot holds each tile once |
| UnlockedShuffle.WrittenSlotsWereUnlocked | Sources/PuzzleKit/PuzzleViewModel.swift:64-70 | under either lock test, only slots whose tile was unlocked on entry are written, and every other slot still holds its tile |
| UnlockedShuffle.LockedTilesKeepIndex | Sources/PuzzleKit/PuzzleViewModel.swift:64-70 | under either lock test, no tile locked on entry has its current index written |
| UnlockedShuffle.LockedSlotsUntouched | Sources/PuzzleKit/PuzzleViewModel.swift:60-71 | a slot whose tile was locked on entry holds the same tile, with the same current index, after the loop |
| UnlockedShuffle.WrittenSlotsKeepIndex | Sources/PuzzleKit/PuzzleViewModel.swift:66-67 | with distinct tiles, every slot the loop wrote holds a placed tile whose current index is that slot |
| UnlockedShuffle.PlacingKeepsIndex | Sources/PuzzleKit/PuzzleViewModel.swift:66-67 | placing a not-yet-placed tile keeps the slot-index agreement of every other written slot |
| UnlockedShuffle.CorrectedWritesUnlockedSlots | Sources/PuzzleKit/PuzzleViewModel.swift:64-70 | with the entry lock test, a slot is written exactly when its tile was unlocked on entry, and `idx` counts those slots |
| UnlockedShuffle.CorrectedPrefixBalance | Sources/PuzzleKit/PuzzleViewModel.swift:64-70 | with the entry lock test, after each slot the tiles in the slots are those on entry, minus the tiles overwritten, plus the tiles placed |
| UnlockedShuffle.BalanceExtends | Sources/PuzzleKit/PuzzleViewModel.swift:65-67 | keeping or refilling one slot extends that balance |
| UnlockedShuffle.CorrectedIsPermutation | Sources/PuzzleKit/PuzzleViewModel.swift:59-72 | with the entry lock test, the loop only rearranges the grid: the multiset of tiles is unchanged |
| UnlockedShuffle.CorrectedKeepsSynced | Sources/PuzzleKit/PuzzleViewModel.swift:59-72 | with the entry lock test, a grid whose every tile records its slot still does after the loop |
| UnlockedShuffle.CorrectedPlacesUnlocked | Sources/PuzzleKit/PuzzleViewModel.swift:64-70 | with the entry lock test and distinct tiles, every slot unlocked on entry ends holding a tile whose current index is that slot |
| UnlockedShuffle.AsWrittenLosesTile | Sources/PuzzleKit/PuzzleViewModel.swift:65 | the loop as written turns slots [Y, X] with shuffle [X, Y] into [X, X], and every slot then reads locked |
| UnlockedShuffle.CorrectedSolvesSameExample | Sources/PuzzleKit/PuzzleViewModel.swift:59-72 | for the same input, the corrected loop yields [X, Y] |
| Model.AllLocked | Sources/PuzzleKit/PuzzleViewModel.swift:41 | `allSatisfy { $0.isLocked }` holds exactly when every tile is locked |
| Model.AnyLocked | Sources/PuzzleKit/PuzzleViewModel.swift:55 | `contains(where: { $0.isLocked })` holds exactly when some tile is locked |
| Model.SwapPermutes | Sources/PuzzleKit/PuzzleViewModel.swift:25-27 | exchanging two entries only rearranges the array |
| Model.PuzzleViewModel.constructor | Sources/PuzzleKit/PuzzleViewModel.swift:8-10 | the grid size is stored and the grid starts empty |
| Model.PuzzleViewModel.SetTiles | Sources/PuzzleKit/PuzzleViewModel.swift:12-14 | the grid becomes the given tiles |
| Model.PuzzleViewModel.IsPuzzleComplete | Sources/PuzzleKit/PuzzleViewModel.swift:40-42 | complete exactly when every tile is locked; an empty grid is complete; it reads the state and changes nothing |
| Model.PuzzleViewModel.SwapTiles | Sources/PuzzleKit/PuzzleViewModel.swift:17-37 | unless locked tiles are allowed, a locked tile at either position makes it a no-op; otherwise exactly the two entries trade places, every other slot keeps its tile, and the two tiles trade current indices. A swap with itself changes nothing. With distinct tiles every slot keeps its current index, so slot-index agreement is preserved. The multiset of tiles is unchanged |
| Model.PuzzleViewModel.ShuffleRound | Sources/PuzzleKit/PuzzleViewModel.swift:50-54 | one round rearranges the tiles and, for distinct tiles, leaves every tile's current index equal to its slot |
| Model.PuzzleViewModel.ShuffleTilesEnsuringNoInitialLock | Sources/PuzzleKit/PuzzleViewModel.swift:46-56 | an empty grid is left alone; otherwise the tiles are only rearranged and, for distinct tiles, each records its slot; `settled`, the source's exit condition, holds exactly when no tile is locked, and then a non-empty puzzle is not complete |
| Model.PuzzleViewModel.Place | Sources/PuzzleKit/PuzzleViewModel.swift:66-67 | slot i now holds t, and t's current index is i |
| Model.PuzzleViewModel.Visit | Sources/PuzzleKit/PuzzleViewModel.swift:65-69 | one loop visit takes the heap from the replayed pass before slot i to the pass after it |
| Model.PuzzleViewModel.RefillSlots | Sources/PuzzleKit/PuzzleViewModel.swift:63-71 | the loop leaves the heap in the state of the replayed pass over all slots |
| Model.PuzzleViewModel.ShuffleUnlockedTilesAsWritten | Sources/PuzzleKit/PuzzleViewModel.swift:59-72 | the method as written leaves the state of the `LiveLock` pass for the shuffle it drew from the unlocked tiles |
| Model.PuzzleViewModel.ShuffleUnlockedTiles | Sources/PuzzleKit/PuzzleViewModel.swift:59-72 | corrected: the tiles are only rearranged; slots locked on entry keep their tile and index; with distinct tiles every other slot's tile records that slot; a grid in slot-index agreement stays so |
| Model.CorrectedHeap | Sources/PuzzleKit/PuzzleViewModel.swift:59-72 | a heap that reflects the corrected pass has the permutation, locked-slot and index facts of the corrected loop |
| View.Offset | Sources/PuzzleKit/PuzzleView.swift:305-308 | the frame's centre moves by exactly the translation, and its width and height stay as they were |
| View.FirstIndexOf | Sources/PuzzleKit/PuzzleView.swift:360-361 | a found index holds the tile and no earlier slot does; nothing is found exactly when the tile is absent |
| View.BestOverlap | Sources/PuzzleKit/PuzzleView.swift:332-355 | a pick is never the moved tile, nor a locked tile unless locked tiles may move. Its overlap is positive, at least a fifth of the moved frame's area, and maximal among eligible tiles; on ties the earliest such tile wins. No pick means every eligible overlap is zero, or every one is below the fifth |
| View.PuzzleView.FindBestOverlapCandidate | Sources/PuzzleKit/PuzzleView.swift:329-356 | without a view model, nothing; otherwise the resolver's promise over the view model's tiles |
| View.PuzzleView.constructor | Sources/PuzzleKit/PuzzleView.swift:10-35 | grid size 3, locked tiles may not move, no view model, no image, not laid out, not completed |
| View.PuzzleView.SwapTiles | Sources/PuzzleKit/PuzzleView.swift:358-370 | a tile missing from the view model makes it a no-op; otherwise it is the view model's swap at the two first indices, with locked moves allowed exactly when `canMoveLockedTiles`; every tile other than the two keeps its current index; tiles are only rearranged and consistency is kept |
| View.MembersKept | Sources/PuzzleKit/PuzzleView.swift:166 | a rearranged grid holds no tile it did not hold before |
| View.FullShuffle | Sources/PuzzleKit/PuzzleView.swift:166 | the full shuffle only rearranges the view model's tiles and leaves distinct tiles in slot-index agreement; `settled` holds exactly when no tile is locked |
| View.PuzzleView.ShufflePuzzle | Sources/PuzzleKit/PuzzleView.swift:165-169 | the tiles are only rearranged and laid out on their cells, consistency is kept, and the completion latch is cleared; `settled`, the full shuffle's exit condition, holds exactly when no tile is locked |
| View.PartialShuffle | Sources/PuzzleKit/PuzzleView.swift:172 | the unlocked-tile shuffle only rearranges the tiles, keeps every locked slot's tile together with that tile's current index, and keeps a consistent grid consistent |
| View.PuzzleView.ShuffleUnlockedPuzzle | Sources/PuzzleKit/PuzzleView.swift:171-174 | the completion latch is left as it was; locked slots keep their tile and its current index; the tiles are only rearranged and laid out again |
| View.PuzzleView.SetPuzzleImage | Sources/PuzzleKit/PuzzleView.swift:155-163 | the image is set and both the completion latch and the laid-out flag are cleared |
| View.CutExtends | Sources/PuzzleKit/PuzzleView.swift:232-259 | numbering cell (row, col) as row·gridSize + col extends the set-up invariant by one tile |
| View.RisingIsDistinct | Sources/PuzzleKit/PuzzleView.swift:232-259 | tiles with strictly rising correct indices are distinct |
| View.PuzzleView.CutTiles | Sources/PuzzleKit/PuzzleView.swift:231-261 | every tile was cut from a successfully cropped cell inside the grid and carries that cell's row-major number, which layout maps back to the cell; numbers rise strictly and stay below gridSize²; new tiles start locked at a zero frame; when every crop succeeds tile k is numbered k |
| View.PuzzleView.SetupPuzzleTiles | Sources/PuzzleKit/PuzzleView.swift:222-268 | a new view model of the view's grid size, empty without a bitmap, otherwise holding a rearrangement of the cut tiles; the view model is consistent afterwards; `settled` holds exactly when no tile is locked |
| View.PuzzleView.LayoutPuzzleTiles | Sources/PuzzleKit/PuzzleView.swift:270-290 | every tile gets the frame of the cell named by its current index; only frames change, so every current index and the grid's consistency are kept |
| View.LaidOutApart | Sources/PuzzleKit/PuzzleView.swift:270-290 | in a consistent, laid-out grid, two different slots hold different tiles whose frames do not overlap |
| View.PuzzleView.LayoutSubviews | Sources/PuzzleKit/PuzzleView.swift:202-220 | nothing happens without an image or with a zero size: the view model, the laid-out flag and every tile frame stay as they were; otherwise the puzzle is built once after an image is set and the tiles are laid out; consistency is kept |
| View.PuzzleView.Drop | Sources/PuzzleKit/PuzzleView.swift:311-317 | the drop (resolve, then swap when a target other than the dragged tile is found) only rearranges the view model's tiles and keeps the grid consistent |
| View.PuzzleView.EndDrag | Sources/PuzzleKit/PuzzleView.swift:310-322 | after the drop and layout, the latch is set exactly when it was set or the view model reports complete |
| View.PuzzleView.HandlePan | Sources/PuzzleKit/PuzzleView.swift:294-327 | the latch never goes from set to clear. Nothing changes once the puzzle is complete, for a locked tile unless locked tiles may move, and on begin or other phases. A change moves the dragged frame by the translation and leaves the grid, every current index and every other tile's frame as they were. An end or cancel leaves the latch set exactly when the puzzle is complete, with tiles laid out |

## Left out

- Device rotation, the emoji and message labels, fading, `UIView.animate` timing and the re-centering of labels in `layoutSubviews` are presentation only. Layout writes each frame at once.
- `loadPuzzle` (URLSession, DispatchQueue) is network I/O and threading. Its only effect on the core is a call to `setPuzzleImage`.
- Image decoding and cropping (`aspectFillCropped`, `cgImage`, `cropping(to:)`) are not modelled. They enter as `decoded` and the `cropped` predicate over cells.
- Alpha values (`updateAlpha`), borders, accessibility identifiers, haptic feedback and gesture-recognizer wiring are presentation only.
- The delegate callbacks are not modelled; Sources/PuzzleKit/PuzzleViewDelegate.swift is not part of this model.
- `addSubview`, `removeFromSuperview` and `setNeedsLayout` are not modelled. The view tree is outside the puzzle state.
- CGFloat rounding is not modelled; frames and overlap areas are real numbers.
- The distribution of the random shuffles is not modelled. Each shuffle is an arbitrary permutation.
- Model.PuzzleViewModel.ShuffleTilesEnsuringNoInitialLock: the source repeats until no tile is locked and need not terminate (it never does on a one-tile grid). The model follows at most `maxRounds` outcomes of the generator and reports in `settled` whether the source's exit condition holds. So "no tile is locked" is promised only when `settled`.
- View.PuzzleView.HandlePan: requires a view model. Pan recognizers are only attached to tiles that set-up hands to the view model, and the end branch force-unwraps it. It also requires a non-zero grid size whenever there are tiles, in every phase. The source needs that only in the end branch, whose layout divides slots by the grid size; the begin and change branches never divide.
- View.PuzzleView.LayoutPuzzleTiles: requires a non-zero grid size when there are tiles, because Swift's `Int` division traps on a zero divisor.
- View.PuzzleView.CutTiles: requires a non-negative grid size, because the range `0..<gridSize` traps otherwise.
- View.PartialShuffle: calls the corrected shuffle of the unlocked tiles (`Model.PuzzleViewModel.ShuffleUnlockedTiles`), not the code as written at Sources/PuzzleKit/PuzzleViewModel.swift:65. Its promise that the tiles are only rearranged does not hold of the source, which can lose a tile (`UnlockedShuffle.AsWrittenLosesTile`).
- View.PuzzleView.ShuffleUnlockedPuzzle: goes through `View.PartialShuffle`, so the same holds. Sources/PuzzleKit/PuzzleView.swift:172 as written can lose a tile (`UnlockedShuffle.AsWrittenLosesTile`), and then the tiles are not only rearranged.
- View.PuzzleView.CutTiles: Swift's `Int` arithmetic traps on overflow, in `correctIndex += 1` and in `row * gridSize + col`. The model's integers are unbounded, so that trap is not modelled. It needs a grid side above about 3·10⁹.
- Grid.Cell: the same holds for the slot arithmetic of layout. Swift's `/` also traps on `Int.min / -1`; the model's integers are unbounded and that case is not modelled.
- View.PuzzleView.Drop: does not state which two tiles it swaps. FindBestOverlapCandidate and SwapTiles state that for the two steps it chains.
- Model.PuzzleViewModel.SwapTiles: requires both positions in range, because an out-of-range subscript traps.
- The Example app, its tests and Package.swift are not modelled; they are configuration and UI.

## Findings

| source | as written | input that shows it | evidently intended | confidence | as-written member | corrected member |
|---|---|---|---|---|---|---|
| Sources/PuzzleKit/PuzzleViewModel.swift:65 | The refill loop tests `tiles[i].isLocked` on the tile still stored at slot i. An earlier iteration may already have placed that tile elsewhere and overwritten its `currentIndex`. | Slot 0 holds Y (correct slot 1) and slot 1 holds X (correct slot 0), both unlocked; the shuffle yields [X, Y]. X goes to slot 0 and now reads locked, so slot 1 is skipped. The grid ends as [X, X], Y is gone, and `isPuzzleComplete` reports true. | Refill exactly the slots whose tile was unlocked when the method began, so the tiles are only rearranged. | high; not executed | UnlockedShuffle.AsWrittenLosesTile | Model.PuzzleViewModel.ShuffleUnlockedTiles |
