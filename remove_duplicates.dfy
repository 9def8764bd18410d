/** Collapsing runs of equal adjacent elements in place, keeping one copy of
    each run at the front of the array. */
module RemoveDuplicates {

  /** `s` with every run of equal adjacent elements collapsed to one copy, in
      the original order. */
  function Dedup(s: seq<int>): seq<int>
  {
    if |s| <= 1 then s
    else if s[|s| - 1] == s[|s| - 2] then Dedup(s[..|s| - 1])
    else Dedup(s[..|s| - 1]) + [s[|s| - 1]]
  }

  predicate NoAdjacentEqual(s: seq<int>)
  {
    forall i :: 0 < i < |s| ==> s[i - 1] != s[i]
  }

  predicate Sorted(s: seq<int>)
  {
    forall i, j :: 0 <= i < j < |s| ==> s[i] <= s[j]
  }

  predicate StrictlyIncreasing(s: seq<int>)
  {
    forall i, j :: 0 <= i < j < |s| ==> s[i] < s[j]
  }

  /** A non-empty input keeps its first and last elements, and at least one
      and at most all of its elements. */
  lemma {:induction false} DedupEnds(s: seq<int>)
    requires s != []
    ensures Dedup(s) != [] && 1 <= |Dedup(s)| <= |s|
    ensures Dedup(s)[0] == s[0] && Dedup(s)[|Dedup(s)| - 1] == s[|s| - 1]
  {
    if |s| > 1 {
      DedupEnds(s[..|s| - 1]);
    }
  }

  /** The result holds exactly the values of the input. */
  lemma {:induction false} DedupElements(s: seq<int>)
    ensures forall x :: x in Dedup(s) <==> x in s
  {
    if |s| > 1 {
      var init := s[..|s| - 1];
      DedupElements(init);
      assert s == init + [s[|s| - 1]];
      if s[|s| - 1] == s[|s| - 2] {
        assert s[|s| - 1] in init;
      }
    }
  }

  /** No two neighbours of the result are equal. */
  lemma {:induction false} DedupNoAdjacentEqual(s: seq<int>)
    ensures NoAdjacentEqual(Dedup(s))
  {
    if |s| > 1 {
      var init := s[..|s| - 1];
      DedupNoAdjacentEqual(init);
      if s[|s| - 1] != s[|s| - 2] {
        DedupEnds(init);
      }
    }
  }

  /** On a sorted input the result is strictly increasing and holds exactly
      the distinct values of the input. */
  lemma {:induction false} DedupSorted(s: seq<int>)
    requires Sorted(s)
    ensures StrictlyIncreasing(Dedup(s))
    ensures forall x :: x in Dedup(s) <==> x in s
  {
    DedupElements(s);
    if |s| > 1 {
      var init := s[..|s| - 1];
      DedupSorted(init);
      if s[|s| - 1] != s[|s| - 2] {
        var d := Dedup(init);
        DedupEnds(init);
        assert forall j :: 0 <= j < |d| ==> d[j] <= d[|d| - 1];
        assert d[|d| - 1] == s[|s| - 2] < s[|s| - 1];
      }
    }
  }

  /** Collapsing twice is collapsing once. */
  lemma {:induction false} DedupIdempotent(s: seq<int>)
    ensures Dedup(Dedup(s)) == Dedup(s)
  {
    DedupNoAdjacentEqual(s);
    NoAdjacentEqualFixed(Dedup(s));
  }

  lemma {:induction false} NoAdjacentEqualFixed(s: seq<int>)
    requires NoAdjacentEqual(s)
    ensures Dedup(s) == s
  {
    if |s| > 1 {
      var init := s[..|s| - 1];
      NoAdjacentEqualFixed(init);
      assert init + [s[|s| - 1]] == s;
    }
  }

  /** Extending the input by one element extends the result by that element
      exactly when it differs from the input's last one. */
  lemma DedupSnoc(s: seq<int>, x: int)
    requires s != []
    ensures Dedup(s + [x]) == if x == s[|s| - 1] then Dedup(s) else Dedup(s) + [x]
  {
    assert (s + [x])[..|s|] == s;
  }

  /** `removeDuplicates`: for a non-empty array, walk from the second element
      and copy each element that differs from its left neighbour to the next
      free slot. The first `k` slots then hold the collapsed input; the slots
      from `k` on are as they were. */
  method RemoveDuplicates(nums: array<int>) returns (k: int)
    modifies nums
    ensures 0 <= k <= nums.Length
    ensures nums.Length == 0 ==> k == 0
    ensures nums.Length > 0 ==> 1 <= k
    ensures nums[..k] == Dedup(old(nums[..]))
    ensures nums[k..] == old(nums[k..])
  {
    if nums.Length == 0 {
      return 0;
    }
    ghost var s := nums[..];
    var uniqueIndex := 1;
    for i := 1 to nums.Length
      invariant 1 <= uniqueIndex <= i
      invariant nums[..uniqueIndex] == Dedup(s[..i])
      invariant nums[i - 1] == s[i - 1]
      invariant forall j :: uniqueIndex <= j < nums.Length ==> nums[j] == s[j]
    {
      assert s[..i + 1] == s[..i] + [s[i]];
      DedupSnoc(s[..i], s[i]);
      if nums[i] != nums[i - 1] {
        ghost var kept := nums[..uniqueIndex];
        nums[uniqueIndex] := nums[i];
        assert nums[..uniqueIndex + 1] == kept + [s[i]];
        uniqueIndex := uniqueIndex + 1;
      }
    }
    assert s[..nums.Length] == s;
    k := uniqueIndex;
    assert nums[k..] == s[k..];
  }

  /** The collapsed form of the sample input of the source's `main`. */
  lemma SampleDedup()
    ensures Dedup([1, 1, 2, 3, 3, 3, 3, 3, 3, 3, 5]) == [1, 2, 3, 5]
  {
    var p := [1, 1, 2, 3];
    DedupSnoc([1], 1);
    assert [1] + [1] == [1, 1];
    DedupSnoc([1, 1], 2);
    assert [1, 1] + [2] == [1, 1, 2];
    DedupSnoc([1, 1, 2], 3);
    assert [1, 1, 2] + [3] == p;
    assert Dedup(p) == [1, 2, 3];
    while |p| < 10
      invariant 4 <= |p| <= 10 && p == [1, 1, 2] + seq(|p| - 3, _ => 3)
      invariant Dedup(p) == [1, 2, 3]
    {
      DedupSnoc(p, 3);
      p := p + [3];
    }
    DedupSnoc(p, 5);
    assert p + [5] == [1, 1, 2, 3, 3, 3, 3, 3, 3, 3, 5];
  }

  /** The source's `main`: {1, 1, 2, 3, 3, 3, 3, 3, 3, 3, 5} gives 4 and the
      prefix 1 2 3 5. */
  method Demo() returns (k: int, prefix: seq<int>)
    ensures k == 4 && prefix == [1, 2, 3, 5]
  {
    var nums := new int[11] [1, 1, 2, 3, 3, 3, 3, 3, 3, 3, 5];
    assert nums[..] == [1, 1, 2, 3, 3, 3, 3, 3, 3, 3, 5];
    k := RemoveDuplicates(nums);
    SampleDedup();
    prefix := nums[..k];
  }
}
