/** Moving the zeros of an array to its end in place, keeping the order of the
    other elements, by swapping each non-zero element down to the next free
    slot. */
module MoveZeroes {

  /** The non-zero elements of `s`, in their original order. */
  function NonZeros(s: seq<int>): (r: seq<int>)
    ensures |r| <= |s|
    ensures forall j :: 0 <= j < |r| ==> r[j] != 0
  {
    if s == [] then []
    else if s[|s| - 1] != 0 then NonZeros(s[..|s| - 1]) + [s[|s| - 1]]
    else NonZeros(s[..|s| - 1])
  }

  /** `n` zeros. */
  function Zeros(n: nat): (r: seq<int>)
    ensures |r| == n && forall j :: 0 <= j < n ==> r[j] == 0
  {
    if n == 0 then [] else Zeros(n - 1) + [0]
  }

  /** `s` with its non-zero elements first, in order, and its zeros after
      them. */
  function Compacted(s: seq<int>): seq<int>
  {
    NonZeros(s) + Zeros(|s| - |NonZeros(s)|)
  }

  /** Compaction only moves elements: it keeps every element count, and the
      zeros at the end are exactly as many as the input's zeros. */
  lemma {:induction false} CompactedPermutation(s: seq<int>)
    ensures multiset(Compacted(s)) == multiset(s)
    ensures |s| - |NonZeros(s)| == multiset(s)[0]
  {
    NonZerosCounts(s);
    var z := |s| - |NonZeros(s)|;
    ZerosCount(z);
  }

  /** The elements of `s` are its non-zero elements, with 0 counted as
      often as elements are missing from them. */
  lemma {:induction false} NonZerosCounts(s: seq<int>)
    ensures multiset(NonZeros(s))[0 := |s| - |NonZeros(s)|] == multiset(s)
  {
    if s != [] {
      var init, x := s[..|s| - 1], s[|s| - 1];
      NonZerosCounts(init);
      assert s == init + [x];
    }
  }

  /** `n` zeros are `n` copies of 0 and nothing else. */
  lemma {:induction false} ZerosCount(n: nat)
    ensures multiset(Zeros(n))[0] == n
    ensures forall x :: x != 0 ==> multiset(Zeros(n))[x] == 0
  {
    if n > 0 {
      ZerosCount(n - 1);
      assert Zeros(n) == Zeros(n - 1) + [0];
    }
  }

  /** An input without zeros is left as it is. */
  lemma {:induction false} NoZerosUnchanged(s: seq<int>)
    requires forall j :: 0 <= j < |s| ==> s[j] != 0
    ensures Compacted(s) == s
  {
    if s != [] {
      NoZerosUnchanged(s[..|s| - 1]);
      assert s == s[..|s| - 1] + [s[|s| - 1]];
    }
    assert Zeros(0) == [];
  }

  /** Taking one more element of the input extends the non-zero prefix by it
      exactly when it is not zero. */
  lemma NonZerosSnoc(s: seq<int>, x: int)
    ensures NonZeros(s + [x]) == if x != 0 then NonZeros(s) + [x] else NonZeros(s)
  {
    assert (s + [x])[..|s|] == s;
  }

  /** `moveZeroes`: walk the array and swap each non-zero element with the
      slot at `lastNonZero`, then advance it. The array ends up holding the
      non-zero elements in their original order followed by the zeros, and is
      a permutation of what it held. */
  method MoveZeroes(nums: array<int>)
    modifies nums
    ensures nums[..] == Compacted(old(nums[..]))
    ensures multiset(nums[..]) == multiset(old(nums[..]))
  {
    ghost var s := nums[..];
    var lastNonZero := 0;
    for i := 0 to nums.Length
      invariant Progress(nums[..], s, i, lastNonZero)
    {
      if nums[i] != 0 {
        ghost var before := nums[..];
        var temp := nums[lastNonZero];
        nums[lastNonZero] := nums[i];
        nums[i] := temp;
        SwapProgress(before, nums[..], s, i, lastNonZero);
        lastNonZero := lastNonZero + 1;
      } else {
        SkipProgress(nums[..], s, i, lastNonZero);
      }
    }
    assert s[..nums.Length] == s;
    CompactedShape(s, nums[..], lastNonZero);
  }

  /** The state of the walk after `i` elements of the input `s`: the first
      `last` slots hold the non-zero elements seen so far, in order, the
      slots from `last` up to `i` hold zeros, and the slots from `i` on are
      untouched. */
  predicate Progress(a: seq<int>, s: seq<int>, i: int, last: int)
  {
    |a| == |s| && 0 <= last <= i <= |s| &&
    a[..last] == NonZeros(s[..i]) &&
    (forall j :: last <= j < i ==> a[j] == 0) &&
    (forall j :: i <= j < |a| ==> a[j] == s[j])
  }

  /** A non-zero element swapped down to slot `last` extends the non-zero
      prefix by one, and the zero it meets moves up to slot `i`. */
  lemma SwapProgress(a: seq<int>, b: seq<int>, s: seq<int>, i: int, last: int)
    requires Progress(a, s, i, last) && i < |s| && a[i] != 0
    requires b == a[last := a[i]][i := a[last]]
    ensures Progress(b, s, i + 1, last + 1)
  {
    assert s[..i + 1] == s[..i] + [s[i]];
    NonZerosSnoc(s[..i], s[i]);
    assert b[..last + 1] == a[..last] + [s[i]];
  }

  /** A zero element stays where it is and joins the zeros. */
  lemma SkipProgress(a: seq<int>, s: seq<int>, i: int, last: int)
    requires Progress(a, s, i, last) && i < |s| && a[i] == 0
    ensures Progress(a, s, i + 1, last)
  {
    assert s[..i + 1] == s[..i] + [s[i]];
    NonZerosSnoc(s[..i], s[i]);
  }

  /** A sequence of the input's length that starts with the input's non-zero
      elements and holds zeros everywhere else is the compacted input. */
  lemma CompactedShape(s: seq<int>, a: seq<int>, count: int)
    requires |a| == |s| && 0 <= count <= |a|
    requires a[..count] == NonZeros(s)
    requires forall j :: count <= j < |a| ==> a[j] == 0
    ensures a == Compacted(s) && multiset(a) == multiset(s)
  {
    assert a == a[..count] + a[count..];
    assert a[count..] == Zeros(|a| - count);
    CompactedPermutation(s);
  }

  /** The compacted form of the sample input of the source's `main`. */
  lemma SampleCompacted()
    ensures Compacted([0, 1, 0, 3, 12]) == [1, 3, 12, 0, 0]
  {
    assert [0][..0] == [];
    assert NonZeros([0]) == [];
    assert [0, 1][..1] == [0];
    assert NonZeros([0, 1]) == [1];
    assert [0, 1, 0][..2] == [0, 1];
    assert NonZeros([0, 1, 0]) == [1];
    assert [0, 1, 0, 3][..3] == [0, 1, 0];
    assert NonZeros([0, 1, 0, 3]) == [1, 3];
    assert [0, 1, 0, 3, 12][..4] == [0, 1, 0, 3];
    assert NonZeros([0, 1, 0, 3, 12]) == [1, 3, 12];
    assert Zeros(2) == [0, 0];
  }

  /** The source's `main`: {0, 1, 0, 3, 12} becomes {1, 3, 12, 0, 0}. */
  method Demo() returns (result: seq<int>)
    ensures result == [1, 3, 12, 0, 0]
  {
    var nums := new int[5] [0, 1, 0, 3, 12];
    assert nums[..] == [0, 1, 0, 3, 12];
    MoveZeroes(nums);
    SampleCompacted();
    result := nums[..];
  }
}
