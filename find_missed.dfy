/** The values of 1..n missing from an array of n values drawn from 1..n: a
    cyclic sort puts every present value `v` at slot `v - 1`, and a scan then
    collects the slots that do not hold their own value. */
module FindMissed {

  /** The values of 1..m that do not occur in `s`, in ascending order. */
  function Missing(s: seq<int>, m: int): seq<int>
    decreases m
  {
    if m <= 0 then [] else Missing(s, m - 1) + (if m in s then [] else [m])
  }

  predicate StrictlyIncreasing(s: seq<int>)
  {
    forall i, j :: 0 <= i < j < |s| ==> s[i] < s[j]
  }

  /** Every value of `s` lies in 1..n. */
  predicate InRange(s: seq<int>, n: int)
  {
    forall j :: 0 <= j < |s| ==> 1 <= s[j] <= n
  }

  /** The values in the first `i` slots of `s` sit at their home slots too:
      each such value `v` is also found at slot `v - 1`. */
  predicate Placed(s: seq<int>, i: int)
    requires InRange(s, |s|) && i <= |s|
  {
    forall j :: 0 <= j < i ==> s[s[j] - 1] == s[j]
  }

  /** The slots that do not hold their own value. */
  function NotHome(s: seq<int>): set<int>
  {
    set j | 0 <= j < |s| && s[j] != j + 1
  }

  /** The result holds exactly the values of 1..m absent from `s`. */
  lemma {:induction false} MissingElements(s: seq<int>, m: int)
    ensures forall v :: v in Missing(s, m) <==> 1 <= v <= m && v !in s
    decreases m
  {
    if m > 0 {
      MissingElements(s, m - 1);
    }
  }

  /** The result is in strictly ascending order. */
  lemma {:induction false} MissingIncreasing(s: seq<int>, m: int)
    ensures StrictlyIncreasing(Missing(s, m))
    decreases m
  {
    if m > 0 {
      MissingIncreasing(s, m - 1);
      MissingElements(s, m - 1);
      var r := Missing(s, m - 1);
      assert forall k :: 0 <= k < |r| ==> r[k] in r;
    }
  }

  /** Only which values occur matters, not where or how often. */
  lemma {:induction false} MissingSameValues(s: seq<int>, t: seq<int>, m: int)
    requires forall v :: v in s <==> v in t
    ensures Missing(s, m) == Missing(t, m)
    decreases m
  {
    if m > 0 {
      MissingSameValues(s, t, m - 1);
    }
  }

  /** Once every slot is placed, a value of 1..n occurs exactly when its
      home slot holds it. */
  lemma PlacedMembership(t: seq<int>)
    requires InRange(t, |t|) && Placed(t, |t|)
    ensures forall v :: 1 <= v <= |t| ==> (v in t <==> t[v - 1] == v)
  {
    forall v | 1 <= v <= |t| && v in t
      ensures t[v - 1] == v
    {
      var j :| 0 <= j < |t| && t[j] == v;
    }
  }

  /** One step of the scan over a placed array: slot `k` adds `k + 1` to the
      result exactly when `k + 1` is missing. */
  lemma CollectStep(t: seq<int>, k: int, res: seq<int>)
    requires InRange(t, |t|) && Placed(t, |t|) && 0 <= k < |t|
    requires res == Missing(t, k)
    ensures (if t[k] != k + 1 then res + [k + 1] else res) == Missing(t, k + 1)
  {
    PlacedMembership(t);
  }

  /** A slot whose value is already at home joins the placed prefix. */
  lemma StayStep(a: seq<int>, i: int)
    requires InRange(a, |a|) && 0 <= i < |a| && Placed(a, i)
    requires a[a[i] - 1] == a[i]
    ensures Placed(a, i + 1)
  {
  }

  /** One swap of the cyclic sort: the value at slot `i` goes to its home
      slot, which did not hold it. The values keep their counts and their
      range, the placed prefix stays placed, and one more slot is home. */
  lemma SwapStep(a: seq<int>, b: seq<int>, i: int)
    requires InRange(a, |a|) && 0 <= i < |a| && Placed(a, i)
    requires a[i] != a[a[i] - 1]
    requires b == a[i := a[a[i] - 1]][a[i] - 1 := a[i]]
    ensures InRange(b, |b|) && Placed(b, i)
    ensures multiset(b) == multiset(a)
    ensures NotHome(b) < NotHome(a)
  {
    SwapKeepsPlaced(a, b, i);
    SwapHomesOneMore(a, b, i);
  }

  /** The swap keeps every value in range and leaves the placed prefix
      placed: no slot of it is one of the two slots swapped. */
  lemma SwapKeepsPlaced(a: seq<int>, b: seq<int>, i: int)
    requires InRange(a, |a|) && 0 <= i < |a| && Placed(a, i)
    requires a[i] != a[a[i] - 1]
    requires b == a[i := a[a[i] - 1]][a[i] - 1 := a[i]]
    ensures InRange(b, |b|) && Placed(b, i)
  {
    var home := a[i] - 1;
    forall j | 0 <= j < i
      ensures b[b[j] - 1] == b[j]
    {
      assert a[j] - 1 != home && a[j] - 1 != i;
    }
  }

  /** After the swap the home slot of the moved value holds it, and no slot
      that was home stops being home. */
  lemma SwapHomesOneMore(a: seq<int>, b: seq<int>, i: int)
    requires InRange(a, |a|) && 0 <= i < |a|
    requires a[i] != a[a[i] - 1]
    requires b == a[i := a[a[i] - 1]][a[i] - 1 := a[i]]
    ensures NotHome(b) < NotHome(a)
  {
    var home := a[i] - 1;
    assert home in NotHome(a) && home !in NotHome(b);
    forall j | j in NotHome(b)
      ensures j in NotHome(a)
    {
      assert j != home;
    }
  }

  /** `findMissed`, for an array whose values all lie in 1..n (a value out of
      range indexes outside the array in the source). The cyclic sort swaps
      the value at slot `i` to its home slot until slot `i`'s value is
      already at home, then moves on; the scan collects `i + 1` for every
      slot `i` not holding `i + 1`. The result is the ascending list of the
      values of 1..n absent from the input, and the array ends up a
      permutation of the input. */
  method FindMissed(nums: array<int>) returns (res: seq<int>)
    requires InRange(nums[..], nums.Length)
    modifies nums
    ensures res == Missing(old(nums[..]), nums.Length)
    ensures multiset(nums[..]) == multiset(old(nums[..]))
  {
    ghost var s := nums[..];
    var i := 0;
    while i < nums.Length
      invariant 0 <= i <= nums.Length
      invariant InRange(nums[..], nums.Length) && Placed(nums[..], i)
      invariant multiset(nums[..]) == multiset(s)
      decreases nums.Length - i, NotHome(nums[..])
    {
      var index := nums[i] - 1;
      if nums[i] != nums[index] {
        ghost var before := nums[..];
        var temp := nums[i];
        nums[i] := nums[index];
        nums[index] := temp;
        SwapStep(before, nums[..], i);
      } else {
        StayStep(nums[..], i);
        i := i + 1;
      }
    }
    ghost var t := nums[..];
    res := [];
    for k := 0 to nums.Length
      invariant nums[..] == t
      invariant res == Missing(t, k)
    {
      CollectStep(t, k, res);
      assert nums[k] == t[k];
      if nums[k] != k + 1 {
        res := res + [k + 1];
      }
    }
    assert forall v :: v in t <==> v in multiset(s);
    MissingSameValues(t, s, nums.Length);
  }

  /** The missing values of the sample input of the source's `main`. */
  lemma SampleMissing(s: seq<int>)
    requires s == [4, 3, 2, 7, 8, 2, 3, 1]
    ensures Missing(s, 8) == [5, 6]
  {
    assert s[7] == 1 && s[2] == 2 && s[1] == 3 && s[0] == 4;
    assert Missing(s, 4) == [];
    assert 5 !in s && 6 !in s;
    assert Missing(s, 6) == [5, 6];
    assert s[3] == 7 && s[4] == 8;
  }

  /** The source's `main`: {4, 3, 2, 7, 8, 2, 3, 1} gives {5, 6}. */
  method Demo() returns (res: seq<int>)
    ensures res == [5, 6]
  {
    var nums := new int[8] [4, 3, 2, 7, 8, 2, 3, 1];
    assert nums[..] == [4, 3, 2, 7, 8, 2, 3, 1];
    res := FindMissed(nums);
    SampleMissing([4, 3, 2, 7, 8, 2, 3, 1]);
  }
}
