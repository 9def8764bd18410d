/** The squares of an array's elements, produced by a two-pointer merge that
    fills the result from the back. */
module SortedSquares {

  /** The square of every element of `s`, in the same order. */
  function Squares(s: seq<int>): (r: seq<int>)
    ensures |r| == |s|
    ensures forall i :: 0 <= i < |s| ==> r[i] == s[i] * s[i]
  {
    if s == [] then [] else Squares(s[..|s| - 1]) + [s[|s| - 1] * s[|s| - 1]]
  }

  predicate Sorted(s: seq<int>)
  {
    forall i, j :: 0 <= i < j < |s| ==> s[i] <= s[j]
  }

  /** Every element of `t` is at most one of any two elements around it: the
      values fall and then rise, with no peak inside. */
  predicate Valley(t: seq<int>)
  {
    forall i, j, k :: 0 <= i <= j <= k < |t| ==> t[j] <= t[i] || t[j] <= t[k]
  }

  /** The squares of a sorted sequence form a valley: they fall towards zero
      and rise again. */
  lemma SquaresValley(s: seq<int>)
    requires Sorted(s)
    ensures Valley(Squares(s))
  {
    var t := Squares(s);
    forall i, j, k | 0 <= i <= j <= k < |t|
      ensures t[j] <= t[i] || t[j] <= t[k]
    {
      SquareBetween(s[i], s[j], s[k]);
    }
  }

  /** A value between two others has a square at most one of theirs. */
  lemma SquareBetween(a: int, b: int, c: int)
    requires a <= b <= c
    ensures b * b <= a * a || b * b <= c * c
  {
    if b >= 0 {
      MulMono(b, c);
    } else {
      MulMono(-b, -a);
    }
  }

  lemma MulMono(x: int, y: int)
    requires 0 <= x <= y
    ensures x * x <= y * y
  {
    assert x * x <= x * y by {
      assert x * (y - x) >= 0;
    }
    assert x * y <= y * y by {
      assert y * (y - x) >= 0;
    }
  }

  /** The two-pointer merge: what has been written once the stretch
      `sq[left..right]` of not-yet-placed squares is used up, `done` being
      what is already placed behind it. The larger end square goes in front
      of `done`; on a tie the right one does. */
  function MergeFrom(sq: seq<int>, left: int, right: int, done: seq<int>): seq<int>
    requires 0 <= left && right < |sq|
    decreases right - left
  {
    if left > right then done
    else if sq[left] > sq[right] then MergeFrom(sq, left + 1, right, [sq[left]] + done)
    else MergeFrom(sq, left, right - 1, [sq[right]] + done)
  }

  /** The merge writes every square of the stretch exactly once, in front of
      what was already placed. */
  lemma {:induction false} MergeFromPermutation(sq: seq<int>, left: int, right: int, done: seq<int>)
    requires 0 <= left <= right + 1 <= |sq|
    ensures multiset(MergeFrom(sq, left, right, done)) == multiset(sq[left..right + 1]) + multiset(done)
    decreases right - left
  {
    if left <= right {
      if sq[left] > sq[right] {
        MergeFromPermutation(sq, left + 1, right, [sq[left]] + done);
        PlaceLeftCounts(sq, left, right, done);
      } else {
        MergeFromPermutation(sq, left, right - 1, [sq[right]] + done);
        PlaceRightCounts(sq, left, right, done);
      }
    }
  }

  /** Moving the left end of the stretch in front of `done` keeps the
      combined element counts. */
  lemma PlaceLeftCounts(sq: seq<int>, left: int, right: int, done: seq<int>)
    requires 0 <= left <= right < |sq|
    ensures multiset(sq[left + 1..right + 1]) + multiset([sq[left]] + done)
      == multiset(sq[left..right + 1]) + multiset(done)
  {
    assert sq[left..right + 1] == [sq[left]] + sq[left + 1..right + 1];
  }

  /** Moving the right end of the stretch in front of `done` keeps the
      combined element counts. */
  lemma PlaceRightCounts(sq: seq<int>, left: int, right: int, done: seq<int>)
    requires 0 <= left <= right < |sq|
    ensures multiset(sq[left..right]) + multiset([sq[right]] + done)
      == multiset(sq[left..right + 1]) + multiset(done)
  {
    assert sq[left..right + 1] == sq[left..right] + [sq[right]];
  }

  /** On a valley the merge comes out sorted, provided what is already placed
      is sorted and starts at or above every value still to place: each step
      places the largest value of the stretch. */
  lemma {:induction false} MergeFromSorted(sq: seq<int>, left: int, right: int, done: seq<int>)
    requires 0 <= left <= right + 1 <= |sq|
    requires Valley(sq) && Sorted(done)
    requires done != [] ==> forall j :: left <= j <= right ==> sq[j] <= done[0]
    ensures Sorted(MergeFrom(sq, left, right, done))
    decreases right - left
  {
    if left <= right {
      var top := if sq[left] > sq[right] then sq[left] else sq[right];
      ValleyTop(sq, left, right, top);
      PlaceInFront(top, done);
      if sq[left] > sq[right] {
        MergeFromSorted(sq, left + 1, right, [top] + done);
      } else {
        MergeFromSorted(sq, left, right - 1, [top] + done);
      }
    }
  }

  /** A value at least both ends of a stretch of a valley is at least all of
      the stretch. */
  lemma ValleyTop(t: seq<int>, left: int, right: int, top: int)
    requires Valley(t) && 0 <= left <= right < |t| && t[left] <= top && t[right] <= top
    ensures forall j :: left <= j <= right ==> t[j] <= top
  {
    forall j | left <= j <= right
      ensures t[j] <= top
    {
      assert t[j] <= t[left] || t[j] <= t[right];
    }
  }

  /** A value at or below the head of a sorted sequence can go in front. */
  lemma PlaceInFront(x: int, done: seq<int>)
    requires Sorted(done) && (done != [] ==> x <= done[0])
    ensures Sorted([x] + done)
  {
  }

  /** `sortedSquares`: the result has the input's length and holds the
      squares of its elements, each once; for an input sorted in
      non-decreasing order it is sorted too. The input is only read. */
  method SortedSquares(nums: array<int>) returns (result: seq<int>)
    ensures |result| == nums.Length
    ensures multiset(result) == multiset(Squares(nums[..]))
    ensures Sorted(nums[..]) ==> Sorted(result)
    ensures result == MergeFrom(Squares(nums[..]), 0, nums.Length - 1, [])
  {
    var n := nums.Length;
    var res := new int[n];
    ghost var sq := Squares(nums[..]);
    ghost var done: seq<int> := [];
    var left, right := 0, n - 1;
    var pos := n - 1;
    ghost var whole := MergeFrom(sq, left, right, done);
    while left <= right
      invariant 0 <= left <= right + 1 <= n
      invariant pos == right - left
      invariant res[pos + 1..] == done
      invariant MergeFrom(sq, left, right, done) == whole
      decreases right - left
    {
      var leftSquare := nums[left] * nums[left];
      var rightSquare := nums[right] * nums[right];
      assert leftSquare == sq[left] && rightSquare == sq[right];
      if leftSquare > rightSquare {
        res[pos] := leftSquare;
        done := [leftSquare] + done;
        left := left + 1;
      } else {
        res[pos] := rightSquare;
        done := [rightSquare] + done;
        right := right - 1;
      }
      pos := pos - 1;
    }
    assert res[..] == whole;
    result := res[..];
    MergeFromSpec(nums[..]);
  }

  /** The whole merge on the squares of `s` writes each square once, and
      writes them in order when `s` is sorted. */
  lemma MergeFromSpec(s: seq<int>)
    ensures var r := MergeFrom(Squares(s), 0, |s| - 1, []);
      |r| == |s| && multiset(r) == multiset(Squares(s)) && (Sorted(s) ==> Sorted(r))
  {
    var sq := Squares(s);
    MergeFromPermutation(sq, 0, |s| - 1, []);
    assert sq[0..|s|] == sq;
    assert |multiset(MergeFrom(sq, 0, |s| - 1, []))| == |s|;
    if Sorted(s) {
      SquaresValley(s);
      MergeFromSorted(sq, 0, |s| - 1, []);
    }
  }

  /** The merge on the squares of the sample input of the source's `main`. */
  lemma SampleMerge(sq: seq<int>)
    requires sq == [16, 1, 0, 9, 100]
    ensures MergeFrom(sq, 0, 4, []) == [0, 1, 9, 16, 100]
  {
    assert MergeFrom(sq, 0, 4, []) == MergeFrom(sq, 0, 3, [100]);
    assert MergeFrom(sq, 0, 3, [100]) == MergeFrom(sq, 1, 3, [16, 100]);
    assert MergeFrom(sq, 1, 3, [16, 100]) == MergeFrom(sq, 1, 2, [9, 16, 100]);
    assert MergeFrom(sq, 1, 2, [9, 16, 100]) == MergeFrom(sq, 2, 2, [1, 9, 16, 100]);
  }

  /** The source's `main`: {-4, -1, 0, 3, 10} gives {0, 1, 9, 16, 100}. */
  method Demo() returns (result: seq<int>)
    ensures result == [0, 1, 9, 16, 100]
  {
    var nums := new int[5] [-4, -1, 0, 3, 10];
    assert nums[..] == [-4, -1, 0, 3, 10];
    result := SortedSquares(nums);
    assert Squares(nums[..]) == [16, 1, 0, 9, 100];
    SampleMerge(Squares(nums[..]));
  }
}
