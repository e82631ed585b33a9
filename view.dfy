/**
 * The controller logic of `PuzzleView` (Sources/PuzzleKit/PuzzleView.swift): the
 * drag-target resolver, the swap it triggers, the end of a drag with its completion
 * latch, the resets of that latch, and the tile set-up and layout that go through
 * the slot arithmetic of module Grid.
 *
 * Rotation handling, labels, animation timing, image loading and cropping, haptics
 * and delegate callbacks are presentation or I/O and are not modelled.
 */
module View {
  import opened Wrappers
  import opened Geometry
  import opened Tiles
  import opened UnlockedShuffle
  import opened Model
  import opened Grid

  /**
   * The states of a pan gesture that `handlePan` tells apart; a change carries the
   * translation since the last event.
   */
  datatype PanPhase = Began | Changed(dx: real, dy: real) | Ended | Cancelled | Other

  /** A frame's `center`: the midpoint of its standardized edges. */
  function Center(r: Rect): (real, real)
  {
    ((MinX(r) + MaxX(r)) / 2.0, (MinY(r) + MaxY(r)) / 2.0)
  }

  /**
   * The frame a view gets when its `center` is moved by (dx, dy): the centre moves by the
   * translation and the size stays.
   */
  function Offset(r: Rect, dx: real, dy: real): (moved: Rect)
    ensures Center(moved) == (Center(r).0 + dx, Center(r).1 + dy)
    ensures Width(moved) == Width(r) && Height(moved) == Height(r)
    ensures moved.width == r.width && moved.height == r.height
  {
    Rect(r.x + dx, r.y + dy, r.width, r.height)
  }

  /** `ts.firstIndex(of: t)`, comparing references. */
  function FirstIndexOf(ts: seq<Tile>, t: Tile): (r: Option<nat>)
    ensures r.Some? ==> r.value < |ts| && ts[r.value] == t && t !in ts[..r.value]
    ensures r.None? <==> t !in ts
    decreases |ts|
  {
    if ts == [] then None
    else if ts[0] == t then Some(0)
    else
      match FirstIndexOf(ts[1..], t)
      case None => None
      case Some(i) =>
        assert ts[..i + 1] == [ts[0]] + ts[1..][..i];
        Some(i + 1)
  }

  /** May t receive a drop of moved? It is another tile, and unlocked unless locked tiles may move. */
  predicate Eligible(t: Tile, moved: Tile, canMoveLocked: bool)
    reads t`currentIndex
  {
    t != moved && !(t.IsLocked() && !canMoveLocked)
  }

  /** The area by which t's frame overlaps moved's frame. */
  function Covered(moved: Tile, t: Tile): real
    reads moved`frame, t`frame
  {
    IntersectionArea(moved.frame, t.frame)
  }

  /** Every tile of ts that may receive moved's drop overlaps it by at most bound. */
  predicate CoveredAtMost(ts: seq<Tile>, moved: Tile, canMoveLocked: bool, bound: real)
    reads moved`frame, ts`frame, ts`currentIndex
  {
    forall j :: 0 <= j < |ts| && Eligible(ts[j], moved, canMoveLocked) ==> Covered(moved, ts[j]) <= bound
  }

  /** Every tile of ts that may receive moved's drop overlaps it by less than bound. */
  predicate CoveredBelow(ts: seq<Tile>, moved: Tile, canMoveLocked: bool, bound: real)
    reads moved`frame, ts`frame, ts`currentIndex
  {
    forall j :: 0 <= j < |ts| && Eligible(ts[j], moved, canMoveLocked) ==> Covered(moved, ts[j]) < bound
  }

  /**
   * Slot k of ts is the resolver's pick: an eligible tile with the largest overlap,
   * and strictly larger than that of every eligible tile before it.
   */
  predicate BestAt(ts: seq<Tile>, moved: Tile, canMoveLocked: bool, k: int)
    reads moved`frame, ts`frame, ts`currentIndex
    requires 0 <= k < |ts|
  {
    Eligible(ts[k], moved, canMoveLocked) &&
    forall j :: 0 <= j < |ts| && Eligible(ts[j], moved, canMoveLocked) ==>
      Covered(moved, ts[j]) <= Covered(moved, ts[k]) && (j < k ==> Covered(moved, ts[j]) < Covered(moved, ts[k]))
  }

  /**
   * What `setupPuzzleTiles` has built after numbering n cells: tile k was cut from
   * cell cells[k] of a g×g grid, whose crop succeeded, and carries that cell's row-major
   * number as its correct index; the numbers rise strictly, so no tile is built twice,
   * and all are below n.
   */
  ghost predicate CutSoFar(ts: seq<Tile>, cells: seq<(int, int)>, g: int, cropped: ((int, int)) -> bool, n: int)
  {
    0 < g && |ts| == |cells| &&
    (forall k :: 0 <= k < |ts| ==>
      0 <= cells[k].0 < g && 0 <= cells[k].1 < g && cropped(cells[k]) &&
      ts[k].correctIndex == IndexOf(cells[k].0, cells[k].1, g) &&
      Cell(ts[k].correctIndex, g) == cells[k] && 0 <= ts[k].correctIndex < n) &&
    (forall i, j :: 0 <= i < j < |ts| ==> ts[i].correctIndex < ts[j].correctIndex)
  }

  /** The tiles are numbered 0 .. n-1 in order. */
  predicate Numbered(ts: seq<Tile>, n: int)
  {
    |ts| == n && forall k :: 0 <= k < |ts| ==> ts[k].correctIndex == k
  }

  /** Cutting cell (row, col) as tile number row * g + col extends what has been cut. */
  lemma CutExtends(ts: seq<Tile>, cells: seq<(int, int)>, g: int, cropped: ((int, int)) -> bool,
                   row: int, col: int, rowStart: int, tile: Tile)
    requires 0 <= row < g && 0 <= col < g && rowStart == row * g
    requires CutSoFar(ts, cells, g, cropped, rowStart + col)
    requires cropped((row, col)) && tile.correctIndex == rowStart + col
    ensures CutSoFar(ts + [tile], cells + [(row, col)], g, cropped, rowStart + col + 1)
  {
    CellOfIndex(row, col, g);
  }

  /** Strictly rising correct indices mean distinct tiles. */
  lemma RisingIsDistinct(ts: seq<Tile>)
    requires forall i, j :: 0 <= i < j < |ts| ==> ts[i].correctIndex < ts[j].correctIndex
    ensures Distinct(ts)
  {
  }

  /**
   * What the resolver promises: a pick is the tile at slot at, an eligible one whose
   * overlap is the largest (and strictly larger than every eligible tile's before it),
   * positive and at least a fifth of moved's area; no pick means every eligible tile
   * overlaps by nothing, or every one by less than a fifth of moved's area.
   */
  predicate Resolved(ts: seq<Tile>, moved: Tile, canMoveLocked: bool, r: Option<Tile>, at: int)
    reads moved`frame, ts`frame, ts`currentIndex
  {
    match r
    case Some(t) =>
      0 <= at < |ts| && ts[at] == t && BestAt(ts, moved, canMoveLocked, at) &&
      0.0 < Covered(moved, t) && Area(moved.frame) * 0.2 <= Covered(moved, t)
    case None =>
      CoveredAtMost(ts, moved, canMoveLocked, 0.0) || CoveredBelow(ts, moved, canMoveLocked, Area(moved.frame) * 0.2)
  }

  /**
   * The loop of `findBestOverlapCandidate(for:)`: among the tiles of ts other than moved,
   * skipping locked ones unless canMoveLocked, keep the first with the strictly largest
   * overlap of moved's frame; give nothing when that overlap is under a fifth of moved's area.
   */
  method BestOverlap(ts: seq<Tile>, moved: Tile, canMoveLocked: bool) returns (r: Option<Tile>, ghost at: int)
    ensures Resolved(ts, moved, canMoveLocked, r, at)
    ensures r.Some? ==> r.value in ts && r.value != moved && (canMoveLocked || !r.value.IsLocked())
    ensures r.Some? ==> 0.0 < Covered(moved, r.value) && Area(moved.frame) * 0.2 <= Covered(moved, r.value)
  {
    at := 0;
    var bestOverlap := 0.0;
    var bestTile: Option<Tile> := None;
    var movedFrame := moved.frame;
    var tileArea := Area(movedFrame);
    for i := 0 to |ts|
      invariant bestTile.None? ==> bestOverlap == 0.0
      invariant bestTile.Some? ==> 0 <= at < i && ts[at] == bestTile.value
      invariant bestTile.Some? ==> Eligible(ts[at], moved, canMoveLocked)
      invariant bestTile.Some? ==> bestOverlap == Covered(moved, ts[at]) && 0.0 < bestOverlap
      invariant bestTile.Some? ==>
        forall j :: 0 <= j < at && Eligible(ts[j], moved, canMoveLocked) ==> Covered(moved, ts[j]) < bestOverlap
      invariant forall j :: 0 <= j < i && Eligible(ts[j], moved, canMoveLocked) ==> Covered(moved, ts[j]) <= bestOverlap
    {
      var tile := ts[i];
      if tile != moved && !(tile.IsLocked() && !canMoveLocked) {
        var overlapArea := IntersectionArea(movedFrame, tile.frame);
        if overlapArea > bestOverlap {
          bestOverlap := overlapArea;
          bestTile := Some(tile);
          at := i;
        }
      }
    }
    if bestOverlap < tileArea * 0.2 {
      if bestTile.None? {
        assert CoveredAtMost(ts, moved, canMoveLocked, 0.0);
      } else {
        forall j | 0 <= j < |ts| && Eligible(ts[j], moved, canMoveLocked)
          ensures Covered(moved, ts[j]) < Area(moved.frame) * 0.2
        {
          assert Covered(moved, ts[j]) <= bestOverlap;
        }
      }
      return None, at;
    }
    r := bestTile;
    if r.None? {
      assert CoveredAtMost(ts, moved, canMoveLocked, 0.0);
    }
  }

  /** A rearranged sequence holds no tile that was not there before. */
  lemma MembersKept(before: seq<Tile>, after: seq<Tile>)
    requires multiset(after) == multiset(before)
    ensures forall k :: 0 <= k < |after| ==> after[k] in before
  {
    forall k | 0 <= k < |after|
      ensures after[k] in before
    {
      assert after[k] in multiset(after);
    }
  }

  /** The view model's full shuffle, with what the view relies on. */
  method FullShuffle(vm: PuzzleViewModel, maxRounds: nat) returns (settled: bool)
    modifies vm`tiles, vm.tiles`currentIndex
    ensures settled <==> !AnyLocked(vm.tiles)
    ensures multiset(vm.tiles) == multiset(old(vm.tiles))
    ensures forall k :: 0 <= k < |vm.tiles| ==> vm.tiles[k] in old(vm.tiles)
    ensures old(Distinct(vm.tiles)) ==> Distinct(vm.tiles) && IndexSynced(vm.tiles)
  {
    ghost var distinct := Distinct(vm.tiles);
    settled := vm.ShuffleTilesEnsuringNoInitialLock(maxRounds);
    if distinct {
      DistinctPermutation(old(vm.tiles), vm.tiles);
    }
    MembersKept(old(vm.tiles), vm.tiles);
  }

  /** The view model's shuffle of the unlocked tiles, with what the view relies on. */
  method PartialShuffle(vm: PuzzleViewModel)
    modifies vm`tiles, vm.tiles`currentIndex
    ensures multiset(vm.tiles) == multiset(old(vm.tiles)) && |vm.tiles| == |old(vm.tiles)|
    ensures forall k :: 0 <= k < |vm.tiles| ==> vm.tiles[k] in old(vm.tiles)
    ensures forall j :: 0 <= j < |vm.tiles| && old(vm.tiles[j].IsLocked()) ==>
      vm.tiles[j] == old(vm.tiles[j]) && vm.tiles[j].currentIndex == old(vm.tiles[j].currentIndex)
    ensures old(Distinct(vm.tiles) && IndexSynced(vm.tiles)) ==> Distinct(vm.tiles) && IndexSynced(vm.tiles)
  {
    ghost var consistent := Distinct(vm.tiles) && IndexSynced(vm.tiles);
    ghost var order, cur0 := vm.ShuffleUnlockedTiles();
    assert |vm.tiles| == |old(vm.tiles)| by {
      assert |multiset(vm.tiles)| == |multiset(old(vm.tiles))|;
    }
    forall j | 0 <= j < |vm.tiles| && old(vm.tiles[j].IsLocked())
      ensures vm.tiles[j] == old(vm.tiles[j]) && vm.tiles[j].currentIndex == old(vm.tiles[j].currentIndex)
    {
      assert LockedIn(old(vm.tiles)[j], cur0);
      assert cur0[old(vm.tiles)[j]] == old(vm.tiles[j].currentIndex);
    }
    if consistent {
      assert Synced(old(vm.tiles), cur0) by {
        forall j | 0 <= j < |old(vm.tiles)| ensures cur0[old(vm.tiles)[j]] == j {
          assert old(vm.tiles[j].currentIndex) == j;
        }
      }
      DistinctPermutation(old(vm.tiles), vm.tiles);
    }
    MembersKept(old(vm.tiles), vm.tiles);
  }

  /** Tiles built during the current call, still as built: at a zero frame, and locked. */
  twostate predicate Fresh(new ts: seq<Tile>)
    reads ts
  {
    forall k :: 0 <= k < |ts| ==> fresh(ts[k]) && ts[k].frame == Zero && ts[k].currentIndex == ts[k].correctIndex
  }

  class PuzzleView {
    /** `gridSize` (3 → 3×3). */
    var gridSize: int
    /** Whether locked tiles can still be moved. */
    var canMoveLockedTiles: bool
    /** The puzzle logic; nil until the first layout pass builds it. */
    var viewModel: PuzzleViewModel?
    /** `puzzleImage != nil`; the image itself only feeds the cropping, which is not modelled. */
    var hasImage: bool
    var hasLaidOutPuzzle: bool
    var isPuzzleCompleted: bool
    /** The view's `bounds`. */
    var bounds: Rect

    constructor (bounds: Rect)
      ensures gridSize == 3 && !canMoveLockedTiles && viewModel == null
      ensures !hasImage && !hasLaidOutPuzzle && !isPuzzleCompleted && this.bounds == bounds
    {
      gridSize := 3;
      canMoveLockedTiles := false;
      viewModel := null;
      hasImage := false;
      hasLaidOutPuzzle := false;
      isPuzzleCompleted := false;
      this.bounds := bounds;
    }

    /** The view model, as a frame: empty while there is none. */
    function Holder(): set<PuzzleViewModel>
      reads this`viewModel
    {
      if viewModel == null then {} else {viewModel}
    }

    /** The tiles of the view model, none while there is no view model. */
    function Pieces(): seq<Tile>
      reads this`viewModel, Holder()`tiles
    {
      if viewModel == null then [] else viewModel.tiles
    }

    /**
     * What the view relies on between events: the view model, once built, holds each
     * tile once and every tile's current index is its slot.
     */
    predicate Consistent()
      reads this`viewModel, Holder()`tiles, Pieces()`currentIndex
    {
      viewModel != null ==> Distinct(viewModel.tiles) && IndexSynced(viewModel.tiles)
    }

    /**
     * `findBestOverlapCandidate(for:)`: the resolver run over the view model's tiles;
     * nothing without a view model.
     */
    method FindBestOverlapCandidate(moved: Tile) returns (r: Option<Tile>, ghost at: int)
      ensures viewModel == null ==> r.None?
      ensures viewModel != null ==> Resolved(viewModel.tiles, moved, canMoveLockedTiles, r, at)
    {
      if viewModel == null {
        return None, 0;
      }
      r, at := BestOverlap(viewModel.tiles, moved, canMoveLockedTiles);
    }

    /**
     * The view's `swapTiles(_:with:)`: find both tiles in the view model and hand their
     * positions to the view model's swap, allowing locked tiles when `canMoveLockedTiles`.
     * A tile that is not in the view model makes it do nothing (the view model is
     * force-unwrapped, so it must exist).
     */
    method SwapTiles(t1: Tile, t2: Tile)
      requires viewModel != null
      modifies viewModel`tiles, viewModel.tiles`currentIndex
      ensures t1 !in old(viewModel.tiles) || t2 !in old(viewModel.tiles) ==>
        viewModel.tiles == old(viewModel.tiles) && unchanged(old(viewModel.tiles))
      ensures t1 in old(viewModel.tiles) && t2 in old(viewModel.tiles) ==>
        var i1, i2 := FirstIndexOf(old(viewModel.tiles), t1).value, FirstIndexOf(old(viewModel.tiles), t2).value;
        if !canMoveLockedTiles && (old(t1.IsLocked()) || old(t2.IsLocked())) then
          viewModel.tiles == old(viewModel.tiles) && t1.currentIndex == old(t1.currentIndex) && t2.currentIndex == old(t2.currentIndex)
        else
          viewModel.tiles == old(viewModel.tiles)[i1 := t2][i2 := t1] &&
          t1.currentIndex == old(t2.currentIndex) && t2.currentIndex == old(t1.currentIndex)
      ensures multiset(viewModel.tiles) == multiset(old(viewModel.tiles))
      ensures forall k :: 0 <= k < |viewModel.tiles| ==> viewModel.tiles[k] in old(viewModel.tiles)
      ensures forall u :: u in old(viewModel.tiles) && u != t1 && u != t2 ==> u.currentIndex == old(u.currentIndex)
      ensures old(Consistent()) ==> Consistent()
    {
      var vm := viewModel;
      var i1 := FirstIndexOf(vm.tiles, t1);
      var i2 := FirstIndexOf(vm.tiles, t2);
      if i1.None? || i2.None? {
        return;
      }
      ghost var distinct := Distinct(vm.tiles);
      vm.SwapTiles(i1.value, i2.value, canMoveLockedTiles);
      if distinct {
        DistinctPermutation(old(vm.tiles), vm.tiles);
      }
      MembersKept(old(vm.tiles), vm.tiles);
    }

    /**
     * The nested row/column loops of `setupPuzzleTiles`: the counter `correctIndex`
     * advances once per cell, in row-major order, whether or not that cell's crop
     * succeeds (cropped says which do); a tile is appended only for a successful crop.
     * So layout puts every tile back on the cell it was cut from, and when every crop
     * succeeds tile k is numbered k.
     */
    method CutTiles(cropped: ((int, int)) -> bool) returns (ts: seq<Tile>, ghost cells: seq<(int, int)>)
      requires 0 <= gridSize
      ensures gridSize == 0 ==> ts == []
      ensures 0 < gridSize ==> CutSoFar(ts, cells, gridSize, cropped, gridSize * gridSize)
      ensures Distinct(ts)
      ensures Fresh(ts)
      ensures (forall c :: cropped(c)) ==> Numbered(ts, gridSize * gridSize)
    {
      ts, cells := [], [];
      var g := gridSize;
      if g == 0 {
        return;
      }
      var correctIndex := 0;
      ghost var all := forall c :: cropped(c);
      for row := 0 to g
        invariant correctIndex == row * g
        invariant CutSoFar(ts, cells, g, cropped, correctIndex) && Fresh(ts)
        invariant all ==> Numbered(ts, correctIndex)
      {
        ghost var rowStart := correctIndex;
        for col := 0 to g
          invariant correctIndex == rowStart + col
          invariant CutSoFar(ts, cells, g, cropped, correctIndex) && Fresh(ts)
          invariant all ==> Numbered(ts, correctIndex)
        {
          if cropped((row, col)) {
            var tile := new Tile(correctIndex, correctIndex);
            CutExtends(ts, cells, g, cropped, row, col, rowStart, tile);
            ts, cells := ts + [tile], cells + [(row, col)];
          }
          correctIndex := correctIndex + 1;
        }
        assert (row + 1) * g == row * g + g;
      }
      RisingIsDistinct(ts);
    }

    /** Every tile of the view model stands on the cell of the grid that its current index names. */
    predicate LaidOut()
      reads this`viewModel, this`gridSize, this`bounds, Holder()`tiles, Pieces()`currentIndex, Pieces()`frame
      requires gridSize != 0
    {
      forall k :: 0 <= k < |Pieces()| ==> Pieces()[k].frame == CellFrame(Pieces()[k].currentIndex, gridSize, bounds)
    }

    /**
     * `layoutPuzzleTiles`: each tile of the view model gets the frame of the cell
     * `(currentIndex / gridSize, currentIndex % gridSize)`; nothing happens without a view
     * model. Swift's integer division traps on a zero divisor, hence the precondition.
     */
    method LayoutPuzzleTiles()
      requires Pieces() != [] ==> gridSize != 0
      modifies Pieces()`frame
      ensures Pieces() != [] ==> LaidOut()
      ensures forall k :: 0 <= k < |Pieces()| ==> Pieces()[k].currentIndex == old(Pieces()[k].currentIndex)
      ensures Consistent() == old(Consistent())
    {
      if viewModel == null {
        return;
      }
      var ts := viewModel.tiles;
      for i := 0 to |ts|
        invariant forall k :: 0 <= k < i ==> ts[k].frame == CellFrame(ts[k].currentIndex, gridSize, bounds)
      {
        var tile := ts[i];
        var idx := tile.currentIndex;
        tile.frame := CellFrame(idx, gridSize, bounds);
      }
    }

    /** `hasLaidOutPuzzle`'s guard in `layoutSubviews`: an image and a non-zero size. */
    predicate CanLayOut()
      reads this`hasImage, this`bounds
    {
      hasImage && !(bounds.width == 0.0 && bounds.height == 0.0)
    }

    /**
     * `setPuzzleImage`: store the image and clear both the completion latch and the
     * laid-out flag, so the next layout pass builds a new puzzle. The view model stays
     * until then.
     */
    method SetPuzzleImage()
      modifies this`hasImage, this`isPuzzleCompleted, this`hasLaidOutPuzzle
      ensures hasImage && !isPuzzleCompleted && !hasLaidOutPuzzle
      ensures CanLayOut() <==> !(bounds.width == 0.0 && bounds.height == 0.0)
    {
      hasImage := true;
      isPuzzleCompleted := false;
      hasLaidOutPuzzle := false;
    }

    /**
     * `setupPuzzleTiles`: a new view model for `gridSize`; when the image yields a bitmap
     * (decoded), the cut tiles are handed to it and fully shuffled. Without a bitmap it
     * stays empty. The view model ends consistent either way.
     */
    method SetupPuzzleTiles(decoded: bool, cropped: ((int, int)) -> bool, maxRounds: nat)
      returns (settled: bool, ghost cut: seq<Tile>, ghost cells: seq<(int, int)>)
      requires decoded ==> 0 <= gridSize
      modifies this`viewModel
      ensures fresh(viewModel) && viewModel.gridSize == gridSize && Consistent()
      ensures !decoded ==> viewModel.tiles == []
      ensures decoded ==> multiset(viewModel.tiles) == multiset(cut) && (gridSize == 0 ==> cut == [])
      ensures decoded && 0 < gridSize ==> CutSoFar(cut, cells, gridSize, cropped, gridSize * gridSize)
      ensures decoded && (forall c :: cropped(c)) ==> Numbered(cut, gridSize * gridSize)
      ensures forall k :: 0 <= k < |viewModel.tiles| ==> fresh(viewModel.tiles[k])
      ensures settled <==> !AnyLocked(viewModel.tiles)
    {
      var vm := new PuzzleViewModel(gridSize);
      viewModel := vm;
      settled, cut, cells := true, [], [];
      if !decoded {
        return;
      }
      var ts;
      ts, cells := CutTiles(cropped);
      cut := ts;
      vm.SetTiles(ts);
      settled := vm.ShuffleTilesEnsuringNoInitialLock(maxRounds);
      DistinctPermutation(cut, vm.tiles);
      forall k | 0 <= k < |vm.tiles| ensures fresh(vm.tiles[k]) {
        assert vm.tiles[k] in multiset(cut);
      }
    }

    /**
     * `layoutSubviews`: nothing without an image or with a zero size; otherwise build the
     * puzzle on the first pass after an image was set, then lay the tiles out.
     */
    method LayoutSubviews(decoded: bool, cropped: ((int, int)) -> bool, maxRounds: nat)
      requires CanLayOut() && !hasLaidOutPuzzle && decoded ==> 0 <= gridSize
      requires CanLayOut() && hasLaidOutPuzzle && Pieces() != [] ==> gridSize != 0
      modifies this`viewModel, this`hasLaidOutPuzzle, Pieces()`frame
      ensures !CanLayOut() ==> viewModel == old(viewModel) && hasLaidOutPuzzle == old(hasLaidOutPuzzle)
      ensures !CanLayOut() ==> forall k :: 0 <= k < |Pieces()| ==> Pieces()[k].frame == old(Pieces()[k].frame)
      ensures CanLayOut() ==> hasLaidOutPuzzle
      ensures CanLayOut() && !old(hasLaidOutPuzzle) ==> fresh(viewModel) && viewModel.gridSize == gridSize && Consistent()
      ensures CanLayOut() && old(hasLaidOutPuzzle) ==> viewModel == old(viewModel)
      ensures CanLayOut() && Pieces() != [] ==> gridSize != 0 && LaidOut()
      ensures old(Consistent()) ==> Consistent()
    {
      if !CanLayOut() {
        return;
      }
      if !hasLaidOutPuzzle {
        var _, _, _ := SetupPuzzleTiles(decoded, cropped, maxRounds);
        hasLaidOutPuzzle := true;
      }
      LayoutPuzzleTiles();
    }

    /**
     * `shufflePuzzle`: fully reshuffle the view model, if there is one, lay the tiles out
     * again and clear the completion latch.
     */
    method ShufflePuzzle(maxRounds: nat) returns (settled: bool)
      requires Pieces() != [] ==> gridSize != 0
      modifies this`isPuzzleCompleted, Pieces()`currentIndex, Pieces()`frame
      modifies Holder()`tiles
      ensures !isPuzzleCompleted && viewModel == old(viewModel)
      ensures Pieces() != [] ==> gridSize != 0 && LaidOut()
      ensures multiset(Pieces()) == multiset(old(Pieces()))
      ensures old(Consistent()) ==> Consistent()
      ensures settled <==> !AnyLocked(Pieces())
    {
      ghost var before := Pieces();
      settled := true;
      if viewModel != null {
        var vm := viewModel;
        settled := FullShuffle(vm, maxRounds);
        assert Pieces() == vm.tiles;
      }
      assert forall k :: 0 <= k < |Pieces()| ==> Pieces()[k] in before;
      ghost var shuffled := Pieces();
      assert settled <==> !AnyLocked(shuffled);
      LayoutPuzzleTiles();
      assert Pieces() == shuffled;
      isPuzzleCompleted := false;
    }

    /**
     * `shuffleUnlockedPuzzle`: shuffle only the unlocked tiles and lay the tiles out again.
     * Unlike `shufflePuzzle` it leaves the completion latch as it was.
     */
    method ShuffleUnlockedPuzzle()
      requires Pieces() != [] ==> gridSize != 0
      modifies Pieces()`currentIndex, Pieces()`frame
      modifies Holder()`tiles
      ensures isPuzzleCompleted == old(isPuzzleCompleted) && viewModel == old(viewModel)
      ensures Pieces() != [] ==> gridSize != 0 && LaidOut()
      ensures multiset(Pieces()) == multiset(old(Pieces()))
      ensures forall j :: 0 <= j < |Pieces()| && j < |old(Pieces())| && old(Pieces()[j].IsLocked()) ==>
        Pieces()[j] == old(Pieces()[j]) && Pieces()[j].currentIndex == old(Pieces()[j].currentIndex)
      ensures old(Consistent()) ==> Consistent()
    {
      ghost var before := Pieces();
      if viewModel != null {
        var vm := viewModel;
        PartialShuffle(vm);
        assert Pieces() == vm.tiles;
      }
      assert forall k :: 0 <= k < |Pieces()| ==> Pieces()[k] in before;
      LayoutPuzzleTiles();
    }

    /**
     * The drop at the end of a drag: swap the dragged tile with the resolved target, if
     * the resolver finds one.
     */
    method Drop(moved: Tile)
      requires viewModel != null
      modifies viewModel`tiles, viewModel.tiles`currentIndex
      ensures multiset(viewModel.tiles) == multiset(old(viewModel.tiles))
      ensures forall k :: 0 <= k < |viewModel.tiles| ==> viewModel.tiles[k] in old(viewModel.tiles)
      ensures old(Consistent()) ==> Consistent()
    {
      var target, _ := FindBestOverlapCandidate(moved);
      if target.Some? && target.value != moved {
        SwapTiles(moved, target.value);
      }
    }

    /**
     * The `.ended` / `.cancelled` branch of `handlePan`: the drop, a new layout, and the
     * completion latch, set when the view model reports the puzzle complete.
     */
    method EndDrag(moved: Tile)
      requires viewModel != null && (viewModel.tiles != [] ==> gridSize != 0)
      modifies this`isPuzzleCompleted, viewModel`tiles, viewModel.tiles`currentIndex, viewModel.tiles`frame
      ensures isPuzzleCompleted == (old(isPuzzleCompleted) || viewModel.IsPuzzleComplete())
      ensures viewModel.tiles != [] ==> gridSize != 0 && LaidOut()
      ensures multiset(viewModel.tiles) == multiset(old(viewModel.tiles))
      ensures old(Consistent()) ==> Consistent()
    {
      var vm := viewModel;
      Drop(moved);
      assert Pieces() == vm.tiles;
      ghost var dropped, consistent := vm.tiles, Consistent();
      LayoutPuzzleTiles();
      assert vm.tiles == dropped && Consistent() == consistent;
      assert vm.tiles != [] ==> LaidOut();
      if vm.IsPuzzleComplete() {
        isPuzzleCompleted := true;
      }
    }

    /**
     * `handlePan`: ignored once the puzzle is complete, and for a locked tile unless
     * locked tiles may move. A change moves the dragged tile; the end (or cancellation)
     * of a drag is `EndDrag`.
     */
    method HandlePan(moved: Tile, phase: PanPhase)
      requires viewModel != null && (viewModel.tiles != [] ==> gridSize != 0)
      modifies this`isPuzzleCompleted, viewModel`tiles, viewModel.tiles`currentIndex, viewModel.tiles`frame, moved`frame
      ensures old(isPuzzleCompleted) ==> isPuzzleCompleted
      ensures Ignores(old(isPuzzleCompleted), old(moved.IsLocked()), phase) ==>
        isPuzzleCompleted == old(isPuzzleCompleted) && viewModel.tiles == old(viewModel.tiles) &&
        unchanged(old(viewModel.tiles)) && unchanged(moved)
      ensures !Ignores(old(isPuzzleCompleted), old(moved.IsLocked()), phase) && phase.Changed? ==>
        isPuzzleCompleted == old(isPuzzleCompleted) && viewModel.tiles == old(viewModel.tiles) &&
        moved.frame == Offset(old(moved.frame), phase.dx, phase.dy) &&
        (forall k :: 0 <= k < |viewModel.tiles| ==> viewModel.tiles[k].currentIndex == old(viewModel.tiles[k].currentIndex)) &&
        forall k :: 0 <= k < |viewModel.tiles| && viewModel.tiles[k] != moved ==> viewModel.tiles[k].frame == old(viewModel.tiles[k].frame)
      ensures !Ignores(old(isPuzzleCompleted), old(moved.IsLocked()), phase) && (phase.Ended? || phase.Cancelled?) ==>
        (isPuzzleCompleted <==> viewModel.IsPuzzleComplete()) && (viewModel.tiles != [] ==> gridSize != 0 && LaidOut())
      ensures multiset(viewModel.tiles) == multiset(old(viewModel.tiles))
      ensures old(Consistent()) ==> Consistent()
    {
      if isPuzzleCompleted {
        return;
      }
      if moved.IsLocked() && !canMoveLockedTiles {
        return;
      }
      match phase
      case Changed(dx, dy) =>
        moved.frame := Offset(moved.frame, dx, dy);
      case Ended | Cancelled =>
        EndDrag(moved);
      case _ =>
    }

    /** Does `handlePan` drop the event in its guards, or by its phase? */
    predicate Ignores(completed: bool, movedLocked: bool, phase: PanPhase)
      reads this`canMoveLockedTiles
    {
      completed || (movedLocked && !canMoveLockedTiles) || phase.Began? || phase.Other?
    }
  }

  /**
   * Once laid out, the tiles of a consistent view model cover pairwise disjoint cells:
   * no two tiles overlap, so a drag is resolved against at most the tiles it was moved onto.
   */
  lemma LaidOutApart(v: PuzzleView, a: int, b: int)
    requires 0 < v.gridSize && v.Consistent() && v.LaidOut()
    requires 0 <= a < |v.Pieces()| && 0 <= b < |v.Pieces()| && a != b
    ensures v.Pieces()[a] != v.Pieces()[b]
    ensures IntersectionArea(v.Pieces()[a].frame, v.Pieces()[b].frame) == 0.0
  {
    CellFramesDisjoint(a, b, v.gridSize, v.bounds);
  }
}
