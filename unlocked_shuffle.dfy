/**
 * The loop of `shuffleUnlockedTiles` (Sources/PuzzleKit/PuzzleViewModel.swift:59-72)
 * replayed on values, so that lemmas can state what it does.
 *
 * The loop visits every slot i in order. When the tile at slot i counts as unlocked,
 * it stores the next tile of the shuffled list of unlocked tiles there and sets that
 * tile's currentIndex to i. A pass state records the slots, the current index of every
 * tile object (a map, because the loop writes through references), the counter `idx`
 * and, for the lemmas, the set of slots written so far.
 *
 * The source decides "unlocked" by reading the object now stored at slot i, whose
 * currentIndex may already have been overwritten at an earlier slot (LiveLock). The
 * corrected loop decides by the lock state the slot had on entry (EntryLock).
 */
module UnlockedShuffle {
  import opened Tiles

  datatype LockTest =
    | LiveLock   // as written: `tiles[i].isLocked`, read when slot i is visited
    | EntryLock  // corrected: whether slot i held a locked tile when the method began

  /** Does cur hold an index for every tile of ts? */
  predicate Records(ts: seq<Tile>, cur: map<Tile, int>)
  {
    forall t :: t in ts ==> t in cur
  }

  /** `isLocked` of t when the current indices are those recorded in cur. */
  predicate LockedIn(t: Tile, cur: map<Tile, int>)
    requires t in cur
  {
    t.correctIndex == cur[t]
  }

  /** The current index of every tile of ts, as the heap holds it now. */
  function Snapshot(ts: seq<Tile>): (cur: map<Tile, int>)
    reads ts`currentIndex
    ensures Records(ts, cur)
    ensures forall t :: t in cur ==> t in ts && cur[t] == t.currentIndex
    ensures forall t :: t in ts ==> (LockedIn(t, cur) <==> t.IsLocked())
  {
    map t | t in ts :: t.currentIndex
  }

  /** `ts.filter { !$0.isLocked }` against the indices recorded in cur. */
  function Unlocked(ts: seq<Tile>, cur: map<Tile, int>): (u: seq<Tile>)
    requires Records(ts, cur)
    ensures |u| <= |ts|
    decreases |ts|
  {
    if ts == [] then []
    else
      var last := ts[|ts| - 1];
      Unlocked(ts[..|ts| - 1], cur) + (if LockedIn(last, cur) then [] else [last])
  }

  /** The filter keeps only tiles of ts, and only unlocked ones. */
  lemma {:induction false} UnlockedMembers(ts: seq<Tile>, cur: map<Tile, int>)
    requires Records(ts, cur)
    ensures forall t :: t in Unlocked(ts, cur) ==> t in ts && !LockedIn(t, cur)
    decreases |ts|
  {
    if ts != [] {
      var init := ts[..|ts| - 1];
      UnlockedMembers(init, cur);
      assert forall t :: t in init ==> t in ts;
    }
  }

  /** Every slot holds the tile whose recorded current index is that slot. */
  predicate Synced(slots: seq<Tile>, cur: map<Tile, int>)
    requires Records(slots, cur)
  {
    forall j :: 0 <= j < |slots| ==> cur[slots[j]] == j
  }

  /** `unlocked.shuffle()`: order is some rearrangement of the unlocked tiles of slots0. */
  predicate IsShuffle(order: seq<Tile>, slots0: seq<Tile>, cur0: map<Tile, int>)
  {
    Records(slots0, cur0) && multiset(order) == multiset(Unlocked(slots0, cur0))
  }

  datatype Pass = Pass(slots: seq<Tile>, cur: map<Tile, int>, idx: nat, written: set<int>)

  /**
   * The state after the loop has visited slots 0 .. i-1, starting from slots0 with the
   * indices cur0 and writing the tiles of order. The contract is what keeps the loop
   * well defined: `unlocked[idx]` is only read while idx < unlocked.count.
   */
  function Run(test: LockTest, order: seq<Tile>, slots0: seq<Tile>, cur0: map<Tile, int>, i: nat): (p: Pass)
    requires IsShuffle(order, slots0, cur0) && i <= |slots0|
    ensures |p.slots| == |slots0| && p.cur.Keys == cur0.Keys
    ensures p.idx <= |Unlocked(slots0[..i], cur0)| <= |order|
    ensures forall j :: i <= j < |slots0| ==>
      p.slots[j] == slots0[j] && (LockedIn(slots0[j], cur0) ==> p.cur[slots0[j]] == cur0[slots0[j]])
    decreases i
  {
    UnlockedPrefixBound(slots0, cur0, i);
    assert |order| == |multiset(order)| == |Unlocked(slots0, cur0)|;
    if i == 0 then Pass(slots0, cur0, 0, {})
    else
      var p := Run(test, order, slots0, cur0, i - 1);
      var o := p.slots[i - 1];
      assert o == slots0[i - 1] && o in cur0;
      if Counts(test, o, p.cur, cur0) then
        UnlockedStep(slots0, cur0, i);
        p
      else
        assert !LockedIn(o, cur0);
        UnlockedStep(slots0, cur0, i);
        assert |Unlocked(slots0[..i], cur0)| == |Unlocked(slots0[..i - 1], cur0)| + 1;
        var t := order[p.idx];
        assert t in multiset(Unlocked(slots0, cur0));
        UnlockedMembers(slots0, cur0);
        Pass(p.slots[i - 1 := t], p.cur[t := i - 1], p.idx + 1, p.written + {i - 1})
  }

  /** Does slot i's tile o count as locked when slot i is visited with current indices cur? */
  predicate Counts(test: LockTest, o: Tile, cur: map<Tile, int>, cur0: map<Tile, int>)
    requires o in cur && o in cur0
  {
    match test
    case LiveLock => LockedIn(o, cur)
    case EntryLock => LockedIn(o, cur0)
  }

  /** One visit of the loop: slot i is kept, or refilled with order[p.idx]. */
  predicate IsNext(test: LockTest, order: seq<Tile>, cur0: map<Tile, int>, p: Pass, q: Pass, i: nat)
  {
    i < |p.slots| && p.slots[i] in p.cur && p.slots[i] in cur0 &&
    if Counts(test, p.slots[i], p.cur, cur0) then q == p
    else
      p.idx < |order| && order[p.idx] in p.cur &&
      q == Pass(p.slots[i := order[p.idx]], p.cur[order[p.idx] := i], p.idx + 1, p.written + {i})
  }

  lemma RunNext(test: LockTest, order: seq<Tile>, slots0: seq<Tile>, cur0: map<Tile, int>, i: nat)
    requires IsShuffle(order, slots0, cur0) && i < |slots0|
    ensures IsNext(test, order, cur0, Run(test, order, slots0, cur0, i), Run(test, order, slots0, cur0, i + 1), i)
  {
    var p := Run(test, order, slots0, cur0, i);
    assert p.slots[i] == slots0[i];
    if !Counts(test, p.slots[i], p.cur, cur0) {
      UnlockedPrefixBound(slots0, cur0, i + 1);
      UnlockedStep(slots0, cur0, i + 1);
      assert slots0[..i + 1][..i] == slots0[..i];
      assert |order| == |multiset(order)| == |Unlocked(slots0, cur0)|;
      var t := order[p.idx];
      assert t in multiset(Unlocked(slots0, cur0));
      UnlockedMembers(slots0, cur0);
      assert t in p.cur;
      assert Run(test, order, slots0, cur0, i + 1) == Pass(p.slots[i := t], p.cur[t := i], p.idx + 1, p.written + {i});
    } else {
      assert Run(test, order, slots0, cur0, i + 1) == p;
    }
  }

  /** Every tile the loop leaves in a slot has a recorded index. */
  lemma {:induction false} RunRecords(
    test: LockTest, order: seq<Tile>, slots0: seq<Tile>, cur0: map<Tile, int>, i: nat)
    requires IsShuffle(order, slots0, cur0) && i <= |slots0|
    ensures Records(Run(test, order, slots0, cur0, i).slots, Run(test, order, slots0, cur0, i).cur)
    decreases i
  {
    if i > 0 {
      var p := Run(test, order, slots0, cur0, i - 1);
      RunRecords(test, order, slots0, cur0, i - 1);
      RunNext(test, order, slots0, cur0, i - 1);
      if !Counts(test, p.slots[i - 1], p.cur, cur0) {
        var q := Run(test, order, slots0, cur0, i);
        forall t | t in q.slots ensures t in q.cur {
          var k :| 0 <= k < |q.slots| && q.slots[k] == t;
          if k != i - 1 {
            assert t == p.slots[k];
          }
        }
      }
    }
  }

  /** Every tile of the shuffled list comes from the slots. */
  lemma ShuffledFromSlots(order: seq<Tile>, slots0: seq<Tile>, cur0: map<Tile, int>, k: nat)
    requires IsShuffle(order, slots0, cur0) && k < |order|
    ensures order[k] in slots0 && !LockedIn(order[k], cur0)
  {
    assert order[k] in multiset(Unlocked(slots0, cur0));
    UnlockedMembers(slots0, cur0);
  }

  /** The whole loop. */
  function Final(test: LockTest, order: seq<Tile>, slots0: seq<Tile>, cur0: map<Tile, int>): Pass
    requires IsShuffle(order, slots0, cur0)
  {
    Run(test, order, slots0, cur0, |slots0|)
  }

  // ---------------------------------------------------------------------------
  // The filter, one slot at a time

  lemma UnlockedStep(ts: seq<Tile>, cur: map<Tile, int>, i: nat)
    requires Records(ts, cur) && 0 < i <= |ts|
    ensures Unlocked(ts[..i], cur) ==
      Unlocked(ts[..i - 1], cur) + (if LockedIn(ts[i - 1], cur) then [] else [ts[i - 1]])
  {
    assert ts[..i][..i - 1] == ts[..i - 1];
  }

  lemma {:induction false} UnlockedPrefixBound(ts: seq<Tile>, cur: map<Tile, int>, i: nat)
    requires Records(ts, cur) && i <= |ts|
    ensures |Unlocked(ts[..i], cur)| <= |Unlocked(ts, cur)|
    decreases |ts| - i
  {
    if i == |ts| {
      assert ts[..i] == ts;
    } else {
      UnlockedStep(ts, cur, i + 1);
      UnlockedPrefixBound(ts, cur, i + 1);
      assert |Unlocked(ts[..i], cur)| <= |Unlocked(ts[..i + 1], cur)|;
    }
  }

  /** The filter of distinct tiles lists each of them once. */
  lemma {:induction false} UnlockedDistinct(ts: seq<Tile>, cur: map<Tile, int>)
    requires Records(ts, cur) && Distinct(ts)
    ensures Distinct(Unlocked(ts, cur))
    decreases |ts|
  {
    if ts != [] {
      var init, last := ts[..|ts| - 1], ts[|ts| - 1];
      assert Distinct(init);
      UnlockedDistinct(init, cur);
      UnlockedMembers(init, cur);
      assert last !in init;
    }
  }

  /** A synced arrangement stores no tile twice (a tile has only one current index). */
  lemma SyncedIsDistinct(slots: seq<Tile>, cur: map<Tile, int>)
    requires Records(slots, cur) && Synced(slots, cur)
    ensures Distinct(slots)
  {
  }

  // ---------------------------------------------------------------------------
  // What both variants do

  /**
   * Only slots whose tile was unlocked on entry are written before slot i; every other
   * slot still holds the tile it held on entry.
   */
  predicate WritesOnlyUnlocked(p: Pass, slots0: seq<Tile>, cur0: map<Tile, int>, i: nat)
    requires Records(slots0, cur0) && |p.slots| == |slots0|
  {
    (forall j :: j in p.written ==> 0 <= j < i && j < |slots0| && !LockedIn(slots0[j], cur0)) &&
    (forall j :: 0 <= j < |slots0| && j !in p.written ==> p.slots[j] == slots0[j])
  }

  lemma {:induction false} WrittenSlotsWereUnlocked(
    test: LockTest, order: seq<Tile>, slots0: seq<Tile>, cur0: map<Tile, int>, i: nat)
    requires IsShuffle(order, slots0, cur0) && i <= |slots0|
    ensures WritesOnlyUnlocked(Run(test, order, slots0, cur0, i), slots0, cur0, i)
    decreases i
  {
    if i > 0 {
      WrittenSlotsWereUnlocked(test, order, slots0, cur0, i - 1);
    }
  }

  /** A tile locked on entry keeps its current index: only unlocked tiles are placed. */
  predicate LockedIndicesKept(p: Pass, cur0: map<Tile, int>)
  {
    forall t :: t in cur0 && t in p.cur && LockedIn(t, cur0) ==> p.cur[t] == cur0[t]
  }

  lemma {:induction false} LockedTilesKeepIndex(
    test: LockTest, order: seq<Tile>, slots0: seq<Tile>, cur0: map<Tile, int>, i: nat)
    requires IsShuffle(order, slots0, cur0) && i <= |slots0|
    ensures LockedIndicesKept(Run(test, order, slots0, cur0, i), cur0)
    decreases i
  {
    if i > 0 {
      var p := Run(test, order, slots0, cur0, i - 1);
      LockedTilesKeepIndex(test, order, slots0, cur0, i - 1);
      RunNext(test, order, slots0, cur0, i - 1);
      if !Counts(test, p.slots[i - 1], p.cur, cur0) {
        ShuffledFromSlots(order, slots0, cur0, p.idx);
      }
    }
  }

  /** Slots locked on entry hold the same tile, with the same current index, after the loop. */
  lemma LockedSlotsUntouched(test: LockTest, order: seq<Tile>, slots0: seq<Tile>, cur0: map<Tile, int>)
    requires IsShuffle(order, slots0, cur0)
    ensures forall j :: 0 <= j < |slots0| && LockedIn(slots0[j], cur0) ==>
      Final(test, order, slots0, cur0).slots[j] == slots0[j] &&
      Final(test, order, slots0, cur0).cur[slots0[j]] == cur0[slots0[j]]
  {
    WrittenSlotsWereUnlocked(test, order, slots0, cur0, |slots0|);
    LockedTilesKeepIndex(test, order, slots0, cur0, |slots0|);
  }

  /** Every written slot holds one of the tiles placed so far, and that tile's index is the slot. */
  predicate WrittenSlotsSynced(p: Pass, order: seq<Tile>)
  {
    forall j :: 0 <= j < |p.slots| && j in p.written ==>
      p.slots[j] in p.cur && p.slots[j] in order[..MinInt(p.idx, |order|)] && p.cur[p.slots[j]] == j
  }

  function MinInt(a: int, b: int): int { if a <= b then a else b }

  /**
   * With distinct tiles on entry, every tile is placed at most once, so a slot that the
   * loop wrote still holds a tile whose current index is that slot.
   */
  lemma {:induction false} WrittenSlotsKeepIndex(
    test: LockTest, order: seq<Tile>, slots0: seq<Tile>, cur0: map<Tile, int>, i: nat)
    requires IsShuffle(order, slots0, cur0) && i <= |slots0| && Distinct(slots0)
    ensures WrittenSlotsSynced(Run(test, order, slots0, cur0, i), order)
    decreases i
  {
    if i > 0 {
      var p := Run(test, order, slots0, cur0, i - 1);
      var q := Run(test, order, slots0, cur0, i);
      WrittenSlotsKeepIndex(test, order, slots0, cur0, i - 1);
      WrittenSlotsWereUnlocked(test, order, slots0, cur0, i - 1);
      var o := p.slots[i - 1];
      if !Counts(test, o, p.cur, cur0) {
        UnlockedDistinct(slots0, cur0);
        DistinctPermutation(Unlocked(slots0, cur0), order);
        var t := order[p.idx];
        assert q == Pass(p.slots[i - 1 := t], p.cur[t := i - 1], p.idx + 1, p.written + {i - 1});
        assert i - 1 !in p.written;
        PlacingKeepsIndex(order, p, i - 1);
      }
    }
  }

  /** One write of the loop, storing order[p.idx] at slot k, disturbs no earlier write. */
  lemma PlacingKeepsIndex(order: seq<Tile>, p: Pass, k: nat)
    requires Distinct(order) && p.idx < |order| && k < |p.slots| && k !in p.written
    requires WrittenSlotsSynced(p, order)
    ensures var t := order[p.idx];
      WrittenSlotsSynced(Pass(p.slots[k := t], p.cur[t := k], p.idx + 1, p.written + {k}), order)
  {
    var t := order[p.idx];
    assert order[..p.idx + 1] == order[..p.idx] + [t];
    forall j | 0 <= j < |p.slots| && j in p.written
      ensures p.slots[j] != t
    {
      var m :| 0 <= m < p.idx && order[m] == p.slots[j];
    }
  }

  // ---------------------------------------------------------------------------
  // The corrected loop

  /** Tested against the entry lock state, the loop writes exactly the slots that were unlocked. */
  predicate WritesAllUnlocked(p: Pass, slots0: seq<Tile>, cur0: map<Tile, int>, i: nat)
    requires Records(slots0, cur0) && i <= |slots0|
  {
    p.idx == |Unlocked(slots0[..i], cur0)| &&
    forall j :: 0 <= j < i ==> (j in p.written <==> !LockedIn(slots0[j], cur0))
  }

  lemma {:induction false} CorrectedWritesUnlockedSlots(
    order: seq<Tile>, slots0: seq<Tile>, cur0: map<Tile, int>, i: nat)
    requires IsShuffle(order, slots0, cur0) && i <= |slots0|
    ensures WritesAllUnlocked(Run(EntryLock, order, slots0, cur0, i), slots0, cur0, i)
    decreases i
  {
    if i > 0 {
      var p := Run(EntryLock, order, slots0, cur0, i - 1);
      var q := Run(EntryLock, order, slots0, cur0, i);
      CorrectedWritesUnlockedSlots(order, slots0, cur0, i - 1);
      assert i - 1 !in p.written by {
        WrittenSlotsWereUnlocked(EntryLock, order, slots0, cur0, i - 1);
      }
      assert |Unlocked(slots0[..i], cur0)| ==
        |Unlocked(slots0[..i - 1], cur0)| + (if LockedIn(slots0[i - 1], cur0) then 0 else 1)
      by {
        UnlockedStep(slots0, cur0, i);
      }
      assert IsNext(EntryLock, order, cur0, p, q, i - 1) by {
        RunNext(EntryLock, order, slots0, cur0, i - 1);
      }
      assert p.slots[i - 1] == slots0[i - 1];
      if LockedIn(slots0[i - 1], cur0) {
        assert q == p;
      } else {
        assert q.written == p.written + {i - 1} && q.idx == p.idx + 1;
      }
      forall j | 0 <= j < i ensures j in q.written <==> !LockedIn(slots0[j], cur0) {
        if j < i - 1 {
          assert j in q.written <==> j in p.written;
        }
      }
    }
  }

  /** Tiles now in a prefix plus those taken out of it balance the original prefix plus those put in. */
  predicate Balance(now: seq<Tile>, taken: seq<Tile>, before: seq<Tile>, placed: seq<Tile>)
  {
    multiset(now) + multiset(taken) == multiset(before) + multiset(placed)
  }

  /**
   * Bookkeeping of the corrected loop after i slots: the tiles now in slots 0 .. i-1,
   * together with the unlocked tiles taken out of them, are the tiles that were there
   * plus the shuffled tiles placed so far.
   */
  predicate Balanced(p: Pass, order: seq<Tile>, slots0: seq<Tile>, cur0: map<Tile, int>, i: nat)
    requires Records(slots0, cur0) && i <= |slots0| == |p.slots| && p.idx <= |order|
  {
    Balance(p.slots[..i], Unlocked(slots0[..i], cur0), slots0[..i], order[..p.idx])
  }

  lemma {:induction false} CorrectedPrefixBalance(
    order: seq<Tile>, slots0: seq<Tile>, cur0: map<Tile, int>, i: nat)
    requires IsShuffle(order, slots0, cur0) && i <= |slots0|
    ensures Balanced(Run(EntryLock, order, slots0, cur0, i), order, slots0, cur0, i)
    decreases i
  {
    if i > 0 {
      var p := Run(EntryLock, order, slots0, cur0, i - 1);
      var q := Run(EntryLock, order, slots0, cur0, i);
      CorrectedPrefixBalance(order, slots0, cur0, i - 1);
      var x := slots0[i - 1];
      var kept, taken, before, placed := p.slots[..i - 1], Unlocked(slots0[..i - 1], cur0), slots0[..i - 1], order[..p.idx];
      assert Balance(kept, taken, before, placed);
      assert p.slots[i - 1] == x;
      UnlockedStep(slots0, cur0, i);
      SliceLast(slots0, i);
      SliceLast(p.slots, i);
      if LockedIn(x, cur0) {
        assert q == p;
        assert Unlocked(slots0[..i], cur0) == taken;
        BalanceExtends(kept, taken, before, placed, x, x);
      } else {
        var t := order[p.idx];
        assert q == Pass(p.slots[i - 1 := t], p.cur[t := i - 1], p.idx + 1, p.written + {i - 1});
        SliceLast(q.slots, i);
        assert q.slots[..i - 1] == kept;
        SliceLast(order, q.idx);
        assert Unlocked(slots0[..i], cur0) == taken + [x];
        BalanceExtends(kept, taken, before, placed, x, t);
      }
    }
  }

  lemma SliceLast<T>(s: seq<T>, i: nat)
    requires 0 < i <= |s|
    ensures s[..i] == s[..i - 1] + [s[i - 1]]
  {
  }

  /** The two ways one slot extends the balance: kept (x stays) or written (x leaves, y comes in). */
  lemma BalanceExtends(now: seq<Tile>, taken: seq<Tile>, before: seq<Tile>, placed: seq<Tile>, x: Tile, y: Tile)
    requires Balance(now, taken, before, placed)
    ensures Balance(now + [x], taken, before + [x], placed)
    ensures Balance(now + [y], taken + [x], before + [x], placed + [y])
  {
    var n, t, b, p := multiset(now), multiset(taken), multiset(before), multiset(placed);
    assert multiset(now + [x]) == n + multiset{x};
    assert multiset(now + [y]) == n + multiset{y};
    assert multiset(taken + [x]) == t + multiset{x};
    assert multiset(before + [x]) == b + multiset{x};
    assert multiset(placed + [y]) == p + multiset{y};
    forall z
      ensures ((n + multiset{x}) + t)[z] == ((b + multiset{x}) + p)[z]
      ensures ((n + multiset{y}) + (t + multiset{x}))[z] == ((b + multiset{x}) + (p + multiset{y}))[z]
    {
      assert (n + t)[z] == (b + p)[z];
    }
  }

  /** Adding the same tiles to both sides of a multiset equality can be undone. */
  lemma Cancel(a: multiset<Tile>, b: multiset<Tile>, m: multiset<Tile>)
    requires a + m == b + m
    ensures a == b
  {
    forall z ensures a[z] == b[z] {
      assert (a + m)[z] == (b + m)[z];
    }
  }

  /** The corrected loop only rearranges the tiles: no tile is lost or duplicated. */
  lemma CorrectedIsPermutation(order: seq<Tile>, slots0: seq<Tile>, cur0: map<Tile, int>)
    requires IsShuffle(order, slots0, cur0)
    ensures multiset(Final(EntryLock, order, slots0, cur0).slots) == multiset(slots0)
  {
    var n := |slots0|;
    var p := Final(EntryLock, order, slots0, cur0);
    CorrectedPrefixBalance(order, slots0, cur0, n);
    CorrectedWritesUnlockedSlots(order, slots0, cur0, n);
    assert slots0[..n] == slots0 && p.slots[..n] == p.slots;
    assert |order| == |Unlocked(slots0, cur0)| by {
      assert |multiset(order)| == |order|;
    }
    assert order[..p.idx] == order;
    var m := multiset(Unlocked(slots0, cur0));
    assert Balance(p.slots, Unlocked(slots0, cur0), slots0, order);
    Cancel(multiset(p.slots), multiset(slots0), m);
  }

  /**
   * The corrected loop keeps the arrangement synced: if every slot's tile had that slot
   * as its current index on entry, the same holds on exit.
   */
  lemma CorrectedKeepsSynced(order: seq<Tile>, slots0: seq<Tile>, cur0: map<Tile, int>)
    requires IsShuffle(order, slots0, cur0) && Synced(slots0, cur0)
    ensures Records(Final(EntryLock, order, slots0, cur0).slots, Final(EntryLock, order, slots0, cur0).cur)
    ensures Synced(Final(EntryLock, order, slots0, cur0).slots, Final(EntryLock, order, slots0, cur0).cur)
  {
    var p := Final(EntryLock, order, slots0, cur0);
    RunRecords(EntryLock, order, slots0, cur0, |slots0|);
    SyncedIsDistinct(slots0, cur0);
    LockedSlotsUntouched(EntryLock, order, slots0, cur0);
    CorrectedPlacesUnlocked(order, slots0, cur0);
    forall j | 0 <= j < |p.slots| ensures p.cur[p.slots[j]] == j {
      if LockedIn(slots0[j], cur0) {
        assert p.cur[p.slots[j]] == cur0[slots0[j]];
      }
    }
  }

  /** With distinct tiles, every slot that was unlocked on entry ends holding a tile whose index is that slot. */
  lemma CorrectedPlacesUnlocked(order: seq<Tile>, slots0: seq<Tile>, cur0: map<Tile, int>)
    requires IsShuffle(order, slots0, cur0) && Distinct(slots0)
    ensures forall j :: 0 <= j < |slots0| && !LockedIn(slots0[j], cur0) ==>
      Final(EntryLock, order, slots0, cur0).slots[j] in Final(EntryLock, order, slots0, cur0).cur &&
      Final(EntryLock, order, slots0, cur0).cur[Final(EntryLock, order, slots0, cur0).slots[j]] == j
  {
    var n := |slots0|;
    RunRecords(EntryLock, order, slots0, cur0, n);
    WrittenSlotsKeepIndex(EntryLock, order, slots0, cur0, n);
    CorrectedWritesUnlockedSlots(order, slots0, cur0, n);
  }

  // ---------------------------------------------------------------------------
  // The loop as written loses tiles

  /**
   * Slot 0 holds Y (correct slot 1), slot 1 holds X (correct slot 0); both are unlocked
   * and the shuffle yields [X, Y]. Visiting slot 0 stores X there with current index 0;
   * visiting slot 1, the object still stored there is X, which now reads as locked, so
   * the slot is skipped. The grid ends as [X, X]: Y is gone and every slot reads locked.
   */
  lemma AsWrittenLosesTile(x: Tile, y: Tile)
    requires x != y && x.correctIndex == 0 && y.correctIndex == 1
    ensures IsShuffle([x, y], [y, x], map[y := 0, x := 1])
    ensures Final(LiveLock, [x, y], [y, x], map[y := 0, x := 1]).slots == [x, x]
    ensures forall j :: 0 <= j < 2 ==>
      LockedIn(Final(LiveLock, [x, y], [y, x], map[y := 0, x := 1]).slots[j],
               Final(LiveLock, [x, y], [y, x], map[y := 0, x := 1]).cur)
  {
    var slots0, cur0, order := [y, x], map[y := 0, x := 1], [x, y];
    assert Unlocked(slots0[..1], cur0) == [y];
    assert Unlocked(slots0, cur0) == [y, x] by {
      assert slots0[..|slots0| - 1] == slots0[..1];
    }
    assert multiset(order) == multiset(Unlocked(slots0, cur0));
    var p1 := Run(LiveLock, order, slots0, cur0, 1);
    assert Run(LiveLock, order, slots0, cur0, 0) == Pass(slots0, cur0, 0, {});
    assert p1 == Pass([x, x], cur0[x := 0], 1, {0});
  }

  /** The corrected loop, given the same shuffle, puts both tiles home. */
  lemma CorrectedSolvesSameExample(x: Tile, y: Tile)
    requires x != y && x.correctIndex == 0 && y.correctIndex == 1
    ensures IsShuffle([x, y], [y, x], map[y := 0, x := 1])
    ensures Final(EntryLock, [x, y], [y, x], map[y := 0, x := 1]).slots == [x, y]
  {
    AsWrittenLosesTile(x, y);
    var slots0, cur0, order := [y, x], map[y := 0, x := 1], [x, y];
    assert Run(EntryLock, order, slots0, cur0, 0) == Pass(slots0, cur0, 0, {});
    assert Run(EntryLock, order, slots0, cur0, 1) == Pass([x, x], cur0[x := 0], 1, {0});
  }
}
