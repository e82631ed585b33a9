/**
 * A puzzle piece (`PuzzleTile`, Sources/PuzzleKit/PuzzleTile.swift).
 * The image payload and the alpha values are presentation only and not modelled;
 * the view frame is kept because the drag-target resolver reads it.
 */
module Tiles {
  import opened Geometry

  class Tile {
    /** The slot the tile belongs in; fixed at construction. */
    const correctIndex: int
    /** The slot the tile occupies now; written by the view model. */
    var currentIndex: int
    /** The view frame (inherited from UIView), laid out from `currentIndex` and moved by drags. */
    var frame: Rect

    /** `isLocked`: computed from the two indices on every read, so it can never be stale. */
    predicate IsLocked()
      reads this`currentIndex
    {
      correctIndex == currentIndex
    }

    constructor (correctIndex: int, currentIndex: int)
      ensures this.correctIndex == correctIndex && this.currentIndex == currentIndex
      ensures frame == Zero
      ensures IsLocked() <==> correctIndex == currentIndex
    {
      this.correctIndex := correctIndex;
      this.currentIndex := currentIndex;
      frame := Zero;
    }
  }

  /** No object is stored twice. */
  predicate Distinct<T(==)>(s: seq<T>)
  {
    forall i, j :: 0 <= i < j < |s| ==> s[i] != s[j]
  }

  /** A sequence holds each object at most once exactly when its multiset has no repeated element. */
  lemma {:induction false} DistinctIffSingleCounts<T>(s: seq<T>)
    ensures Distinct(s) <==> forall x :: multiset(s)[x] <= 1
  {
    if s != [] {
      var rest := s[1..];
      assert s == [s[0]] + rest;
      DistinctIffSingleCounts(rest);
      if Distinct(s) {
        forall k | 0 <= k < |rest| ensures rest[k] != s[0] {
          assert rest[k] == s[k + 1];
        }
        assert Distinct(rest) by {
          forall i, j | 0 <= i < j < |rest| ensures rest[i] != rest[j] {
            assert rest[i] == s[i + 1] && rest[j] == s[j + 1];
          }
        }
      } else {
        var i, j :| 0 <= i < j < |s| && s[i] == s[j];
        if i == 0 {
          assert s[j] == rest[j - 1];
          assert multiset(s)[s[0]] == 1 + multiset(rest)[s[0]];
        } else {
          assert rest[i - 1] == s[i] && rest[j - 1] == s[j];
          assert !Distinct(rest);
          var x :| multiset(rest)[x] > 1;
          assert multiset(s) == multiset{s[0]} + multiset(rest);
          assert multiset(s)[x] > 1;
        }
      }
    }
  }

  /** Shuffling a sequence of distinct objects keeps them distinct. */
  lemma DistinctPermutation<T>(a: seq<T>, b: seq<T>)
    requires Distinct(a) && multiset(a) == multiset(b)
    ensures Distinct(b)
  {
    DistinctIffSingleCounts(a);
    DistinctIffSingleCounts(b);
  }
}
