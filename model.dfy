/**
 * The puzzle grid (`PuzzleViewModel`, Sources/PuzzleKit/PuzzleViewModel.swift).
 *
 * `tiles` is a Swift array of class references: the array is a value that the
 * view model reassigns, while the tiles' `currentIndex` fields are written through
 * the references. So the field is a `seq<Tile>` and the methods' frames name the
 * `currentIndex` fields of the tiles they may write.
 */
module Model {
  import opened Tiles
  import opened UnlockedShuffle

  /** `ts.allSatisfy { $0.isLocked }`. */
  function AllLocked(ts: seq<Tile>): (all: bool)
    reads ts`currentIndex
    ensures all <==> forall k :: 0 <= k < |ts| ==> ts[k].IsLocked()
    decreases |ts|
  {
    ts == [] || (ts[0].IsLocked() && AllLocked(ts[1..]))
  }

  /** `ts.contains(where: { $0.isLocked })`. */
  function AnyLocked(ts: seq<Tile>): (any: bool)
    reads ts`currentIndex
    ensures any <==> exists k :: 0 <= k < |ts| && ts[k].IsLocked()
    decreases |ts|
  {
    ts != [] && (ts[0].IsLocked() || AnyLocked(ts[1..]))
  }

  /** Every tile's current index is the slot that holds it. */
  predicate IndexSynced(ts: seq<Tile>)
    reads ts`currentIndex
  {
    forall k :: 0 <= k < |ts| ==> ts[k].currentIndex == k
  }

  /** The heap agrees with a pass state of the unlocked-tile shuffle. */
  predicate Reflects(ts: seq<Tile>, p: Pass)
    reads p.cur.Keys`currentIndex
  {
    ts == p.slots && forall t :: t in p.cur ==> t.currentIndex == p.cur[t]
  }

  /** Exchanging two entries of a sequence only rearranges it. */
  lemma SwapPermutes<T>(s: seq<T>, i: nat, j: nat)
    requires i < |s| && j < |s|
    ensures multiset(s[i := s[j]][j := s[i]]) == multiset(s)
  {
    var t := s[i := s[j]];
    assert multiset(t) == multiset(s) - multiset{s[i]} + multiset{s[j]};
  }

  class PuzzleViewModel {
    const gridSize: int
    var tiles: seq<Tile>

    constructor (gridSize: int)
      ensures this.gridSize == gridSize && tiles == []
    {
      this.gridSize := gridSize;
      tiles := [];
    }

    method SetTiles(newTiles: seq<Tile>)
      modifies this`tiles
      ensures tiles == newTiles
    {
      tiles := newTiles;
    }

    /** `isPuzzleComplete`: reads the tiles and changes nothing. */
    function IsPuzzleComplete(): (done: bool)
      reads this`tiles, tiles`currentIndex
      ensures done <==> forall k :: 0 <= k < |tiles| ==> tiles[k].IsLocked()
      ensures tiles == [] ==> done
    {
      AllLocked(tiles)
    }

    /**
     * `swapTiles(at:with:allowLocked:)`. Out-of-range indices trap in Swift, hence the
     * requires. Unless `allowLocked`, nothing happens when either tile is locked;
     * otherwise the two array entries trade places and the two tiles trade their
     * current indices, so every slot keeps the current index it had.
     */
    method SwapTiles(first: int, second: int, allowLocked: bool)
      requires 0 <= first < |tiles| && 0 <= second < |tiles|
      modifies this`tiles, {tiles[first], tiles[second]}`currentIndex
      ensures var blocked := !allowLocked && (old(tiles[first].IsLocked()) || old(tiles[second].IsLocked()));
        if blocked then
          tiles == old(tiles) &&
          old(tiles[first]).currentIndex == old(tiles[first].currentIndex) &&
          old(tiles[second]).currentIndex == old(tiles[second].currentIndex)
        else
          tiles == old(tiles)[first := old(tiles[second])][second := old(tiles[first])] &&
          old(tiles[first]).currentIndex == old(tiles[second].currentIndex) &&
          old(tiles[second]).currentIndex == old(tiles[first].currentIndex)
      ensures first == second ==> tiles == old(tiles) && tiles[first].currentIndex == old(tiles[first].currentIndex)
      ensures old(Distinct(tiles)) ==>
        forall k :: 0 <= k < |tiles| ==> tiles[k].currentIndex == old(tiles[k].currentIndex)
      ensures old(IndexSynced(tiles)) ==> IndexSynced(tiles)
      ensures multiset(tiles) == multiset(old(tiles))
    {
      SwapPermutes(tiles, first, second);
      if !allowLocked {
        if tiles[first].IsLocked() || tiles[second].IsLocked() {
          return;
        }
      }
      var temp := tiles[first];
      tiles := tiles[first := tiles[second]];
      tiles := tiles[second := temp];
      var oldIndex := tiles[first].currentIndex;
      tiles[first].currentIndex := tiles[second].currentIndex;
      tiles[second].currentIndex := oldIndex;
    }

    /** One round of the full shuffle: `tiles.shuffle()`, then `currentIndex = i` slot by slot. */
    method ShuffleRound()
      modifies this`tiles, tiles`currentIndex
      ensures multiset(tiles) == multiset(old(tiles))
      ensures old(Distinct(tiles)) ==> IndexSynced(tiles)
    {
      var shuffled: seq<Tile> :| multiset(shuffled) == multiset(tiles);
      tiles := shuffled;
      forall k | 0 <= k < |tiles| ensures tiles[k] in old(tiles) {
        assert tiles[k] in multiset(tiles);
      }
      ghost var distinct := Distinct(old(tiles));
      if distinct {
        DistinctPermutation(old(tiles), tiles);
      }
      for i := 0 to |tiles|
        invariant multiset(tiles) == multiset(old(tiles))
        invariant forall k :: 0 <= k < |tiles| ==> tiles[k] in old(tiles)
        invariant distinct ==> Distinct(tiles) && forall k :: 0 <= k < i ==> tiles[k].currentIndex == k
      {
        tiles[i].currentIndex := i;
      }
    }

    /**
     * `shuffleTilesEnsuringNoInitialLock`: repeat a round while some tile is locked.
     * The random generator is modelled by the nondeterministic choice in each round;
     * `maxRounds` bounds how many of its outcomes the model follows (at least one round
     * always runs). `settled` says that the loop ended the way the source's loop ends.
     */
    method ShuffleTilesEnsuringNoInitialLock(maxRounds: nat) returns (settled: bool)
      modifies this`tiles, tiles`currentIndex
      ensures old(tiles) == [] ==> tiles == [] && settled
      ensures multiset(tiles) == multiset(old(tiles))
      ensures old(Distinct(tiles)) ==> IndexSynced(tiles)
      ensures settled <==> !AnyLocked(tiles)
      ensures settled && tiles != [] ==> !IsPuzzleComplete()
    {
      if tiles == [] {
        return true;
      }
      ghost var distinct := Distinct(tiles);
      ShuffleRound();
      forall k | 0 <= k < |tiles| ensures tiles[k] in old(tiles) {
        assert tiles[k] in multiset(tiles);
      }
      var rounds := 1;
      while AnyLocked(tiles) && rounds < maxRounds
        invariant multiset(tiles) == multiset(old(tiles))
        invariant forall k :: 0 <= k < |tiles| ==> tiles[k] in old(tiles)
        invariant distinct ==> Distinct(tiles) && IndexSynced(tiles)
        decreases maxRounds - rounds
      {
        ShuffleRound();
        forall k | 0 <= k < |tiles| ensures tiles[k] in old(tiles) {
          assert tiles[k] in multiset(tiles);
        }
        if distinct {
          DistinctPermutation(old(tiles), tiles);
        }
        rounds := rounds + 1;
      }
      settled := !AnyLocked(tiles);
      assert |tiles| == |old(tiles)| by {
        assert |multiset(tiles)| == |multiset(old(tiles))|;
      }
    }

    /** Lines 66-67: store t at slot i and record i as t's current index. */
    method Place(i: nat, t: Tile)
      requires i < |tiles|
      modifies this`tiles, t`currentIndex
      ensures tiles == old(tiles)[i := t] && t.currentIndex == i
    {
      tiles := tiles[i := t];
      tiles[i].currentIndex := i;
    }

    /**
     * One visit of the refill loop (lines 64-70): when slot i's tile counts as unlocked
     * under `test`, store `order[idx]` there and set that tile's current index to i.
     * Starting from a heap that reflects pass p, it leaves one that reflects q.
     */
    method Visit(test: LockTest, order: seq<Tile>, cur0: map<Tile, int>, i: nat, idx: nat,
                 ghost slots0: seq<Tile>) returns (next: nat)
      requires IsShuffle(order, slots0, cur0) && i < |slots0|
      requires Reflects(tiles, Run(test, order, slots0, cur0, i)) && idx == Run(test, order, slots0, cur0, i).idx
      modifies this`tiles, slots0`currentIndex
      ensures Reflects(tiles, Run(test, order, slots0, cur0, i + 1)) && next == Run(test, order, slots0, cur0, i + 1).idx
    {
      ghost var p, q := Run(test, order, slots0, cur0, i), Run(test, order, slots0, cur0, i + 1);
      RunNext(test, order, slots0, cur0, i);
      var locked := match test
        case LiveLock => tiles[i].IsLocked()
        case EntryLock => LockedIn(tiles[i], cur0);
      next := idx;
      if !locked {
        var t := order[idx];
        ShuffledFromSlots(order, slots0, cur0, idx);
        label before:
        Place(i, t);
        next := idx + 1;
        forall u | u in q.cur ensures u.currentIndex == q.cur[u] {
          if u != t {
            assert u.currentIndex == old@before(u.currentIndex);
          }
        }
      }
    }

    /**
     * The refill loop of `shuffleUnlockedTiles` (lines 63-71): visit every slot; when its
     * tile counts as unlocked under `test`, store the next tile of `order` there and set
     * that tile's current index to the slot. The heap it leaves is the replayed pass.
     */
    method RefillSlots(test: LockTest, order: seq<Tile>, cur0: map<Tile, int>)
      requires IsShuffle(order, tiles, cur0)
      requires forall t :: t in cur0 ==> t.currentIndex == cur0[t]
      modifies this`tiles, tiles`currentIndex
      ensures Reflects(tiles, Final(test, order, old(tiles), cur0))
    {
      ghost var slots0 := tiles;
      assert Run(test, order, slots0, cur0, 0) == Pass(slots0, cur0, 0, {});
      var idx := 0;
      for i := 0 to |tiles|
        invariant Reflects(tiles, Run(test, order, slots0, cur0, i)) && idx == Run(test, order, slots0, cur0, i).idx
      {
        idx := Visit(test, order, cur0, i, idx, slots0);
      }
    }

    /**
     * `shuffleUnlockedTiles` as written: the lock test of slot i reads the tile now
     * stored at slot i. The state it leaves is the replayed pass `Final(LiveLock, …)`
     * for the shuffle it drew (returned as `order`, with the indices on entry as
     * `cur0`); `AsWrittenLosesTile` shows a shuffle for which that state has lost a tile.
     */
    method ShuffleUnlockedTilesAsWritten() returns (ghost order: seq<Tile>, ghost cur0: map<Tile, int>)
      modifies this`tiles, tiles`currentIndex
      ensures cur0 == old(Snapshot(tiles)) && IsShuffle(order, old(tiles), cur0)
      ensures Reflects(tiles, Final(LiveLock, order, old(tiles), cur0))
    {
      var entry := Snapshot(tiles);
      var unlocked := Unlocked(tiles, entry);
      var drawn: seq<Tile> :| multiset(drawn) == multiset(unlocked);
      order, cur0 := drawn, entry;
      RefillSlots(LiveLock, drawn, entry);
    }

    /**
     * `shuffleUnlockedTiles` with the lock test taken from the state on entry (`cur0`):
     * a slot is refilled exactly when the tile it held at the start was unlocked. The
     * tiles are only rearranged, locked tiles stay put with their index, with distinct
     * tiles every refilled slot's tile records that slot, and a synced grid stays synced.
     */
    method ShuffleUnlockedTiles() returns (ghost order: seq<Tile>, ghost cur0: map<Tile, int>)
      modifies this`tiles, tiles`currentIndex
      ensures cur0 == old(Snapshot(tiles)) && IsShuffle(order, old(tiles), cur0)
      ensures Reflects(tiles, Final(EntryLock, order, old(tiles), cur0))
      ensures multiset(tiles) == multiset(old(tiles))
      ensures forall j :: 0 <= j < |tiles| && LockedIn(old(tiles)[j], cur0) ==>
        tiles[j] == old(tiles)[j] && tiles[j].currentIndex == cur0[tiles[j]]
      ensures Distinct(old(tiles)) ==> forall j :: 0 <= j < |tiles| && !LockedIn(old(tiles)[j], cur0) ==>
        tiles[j].currentIndex == j
      ensures Synced(old(tiles), cur0) ==> IndexSynced(tiles)
    {
      var entry := Snapshot(tiles);
      var unlocked := Unlocked(tiles, entry);
      var drawn: seq<Tile> :| multiset(drawn) == multiset(unlocked);
      order, cur0 := drawn, entry;
      ghost var slots0 := tiles;
      RefillSlots(EntryLock, drawn, entry);
      CorrectedHeap(tiles, drawn, slots0, entry);
    }
  }

  /** What the heap holds once it reflects the corrected pass. */
  lemma CorrectedHeap(ts: seq<Tile>, order: seq<Tile>, slots0: seq<Tile>, cur0: map<Tile, int>)
    requires IsShuffle(order, slots0, cur0) && Reflects(ts, Final(EntryLock, order, slots0, cur0))
    ensures multiset(ts) == multiset(slots0)
    ensures forall j :: 0 <= j < |ts| && LockedIn(slots0[j], cur0) ==>
      ts[j] == slots0[j] && ts[j].currentIndex == cur0[ts[j]]
    ensures Distinct(slots0) ==> forall j :: 0 <= j < |ts| && !LockedIn(slots0[j], cur0) ==>
      ts[j].currentIndex == j
    ensures Synced(slots0, cur0) ==> IndexSynced(ts)
  {
    var p := Final(EntryLock, order, slots0, cur0);
    CorrectedIsPermutation(order, slots0, cur0);
    LockedSlotsUntouched(EntryLock, order, slots0, cur0);
    if Distinct(slots0) {
      CorrectedPlacesUnlocked(order, slots0, cur0);
    }
    if Synced(slots0, cur0) {
      CorrectedKeepsSynced(order, slots0, cur0);
    }
  }
}
