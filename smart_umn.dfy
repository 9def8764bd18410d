/** The product of all elements but one, for every position of an array,
    from a pass of running prefix products and a pass of running suffix
    products, without division. */
module SmartUmn {

  /** The product of the elements of `s`; 1 for the empty sequence. */
  function Product(s: seq<int>): int
  {
    if s == [] then 1 else Product(s[..|s| - 1]) * s[|s| - 1]
  }

  /** The product of a concatenation is the product of the products. */
  lemma {:induction false} ProductConcat(a: seq<int>, b: seq<int>)
    ensures Product(a + b) == Product(a) * Product(b)
    decreases |b|
  {
    if b == [] {
      assert a + b == a;
    } else {
      var init, x := b[..|b| - 1], b[|b| - 1];
      ProductConcat(a, init);
      assert (a + b)[..|a + b| - 1] == a + init;
      calc {
        Product(a + b);
        Product(a + init) * x;
        Product(a) * Product(init) * x;
        Product(a) * (Product(init) * x);
      }
    }
  }

  /** `s` without its element at position `i`. */
  function AllBut(s: seq<int>, i: int): (r: seq<int>)
    requires 0 <= i < |s|
    ensures |r| == |s| - 1
    ensures forall j :: 0 <= j < |r| ==> r[j] == if j < i then s[j] else s[j + 1]
  {
    s[..i] + s[i + 1..]
  }

  /** The product of everything but position `i` is the product of what lies
      before it times the product of what lies after it, and times the
      element itself it gives the product of the whole sequence. */
  lemma ProductAllBut(s: seq<int>, i: int)
    requires 0 <= i < |s|
    ensures Product(AllBut(s, i)) == Product(s[..i]) * Product(s[i + 1..])
    ensures Product(AllBut(s, i)) * s[i] == Product(s)
  {
    ProductConcat(s[..i], s[i + 1..]);
    ProductSplit(s, i);
    MulRotate(Product(s[..i]), Product(s[i + 1..]), s[i]);
  }

  /** The product of a sequence splits around any of its positions. */
  lemma ProductSplit(s: seq<int>, i: int)
    requires 0 <= i < |s|
    ensures Product(s) == Product(s[..i]) * s[i] * Product(s[i + 1..])
  {
    assert s == s[..i + 1] + s[i + 1..];
    ProductConcat(s[..i + 1], s[i + 1..]);
    ProductPrefixStep(s, i);
  }

  lemma MulRotate(p: int, q: int, x: int)
    ensures p * q * x == p * x * q
  {
    calc {
      p * q * x;
      p * (q * x);
      p * (x * q);
      p * x * q;
    }
  }

  /** One more element of a prefix multiplies its product by that element. */
  lemma ProductPrefixStep(s: seq<int>, i: int)
    requires 0 <= i < |s|
    ensures Product(s[..i + 1]) == Product(s[..i]) * s[i]
  {
    assert s[..i + 1][..i] == s[..i];
  }

  /** One more element in front of a suffix multiplies its product by that
      element. */
  lemma ProductSuffixStep(s: seq<int>, i: int)
    requires 0 <= i < |s|
    ensures Product(s[i..]) == Product(s[i + 1..]) * s[i]
  {
    ProductConcat([s[i]], s[i + 1..]);
    assert [s[i]] + s[i + 1..] == s[i..];
    assert Product([s[i]]) == s[i] by {
      assert [s[i]][..0] == [];
    }
  }

  /** `smartUmn`: the first pass writes into every slot the running product
      of the elements before it; the second pass, from the back, multiplies
      every slot by the running product of the elements after it. Slot `i`
      of the result then holds the product of all elements but the one at
      `i`. The input is only read. */
  method SmartUmn(nums: array<int>) returns (result: seq<int>)
    ensures |result| == nums.Length
    ensures forall i :: 0 <= i < nums.Length ==> result[i] == Product(AllBut(nums[..], i))
  {
    var res := PrefixPass(nums);
    SuffixPass(nums, res);
    result := res[..];
  }

  /** The first pass: a fresh array whose slot `i` holds the product of the
      elements before position `i`. */
  method PrefixPass(nums: array<int>) returns (res: array<int>)
    ensures fresh(res) && res.Length == nums.Length
    ensures forall j :: 0 <= j < nums.Length ==> res[j] == Product(nums[..j])
  {
    var n := nums.Length;
    res := new int[n](_ => 1);
    var leftProduct := 1;
    for i := 0 to n
      invariant leftProduct == Product(nums[..i])
      invariant forall j :: 0 <= j < i ==> res[j] == Product(nums[..j])
    {
      res[i] := leftProduct;
      ProductPrefixStep(nums[..], i);
      assert nums[..i + 1] == nums[..][..i + 1] && nums[..i] == nums[..][..i];
      leftProduct := leftProduct * nums[i];
    }
  }

  /** The second pass: walking from the back, every slot holding the product
      of the elements before it is multiplied by the product of the elements
      after it, and then holds the product of all elements but its own. */
  method SuffixPass(nums: array<int>, res: array<int>)
    requires res != nums && res.Length == nums.Length
    requires forall j :: 0 <= j < nums.Length ==> res[j] == Product(nums[..j])
    modifies res
    ensures forall j :: 0 <= j < nums.Length ==> res[j] == Product(AllBut(nums[..], j))
  {
    var n := nums.Length;
    ghost var s := nums[..];
    var rightProduct := 1;
    var i := n - 1;
    assert s[n..] == [];
    while i >= 0
      invariant -1 <= i < n
      invariant nums[..] == s
      invariant rightProduct == Product(s[i + 1..])
      invariant forall j :: 0 <= j <= i ==> res[j] == Product(s[..j])
      invariant forall j :: i < j < n ==> res[j] == Product(AllBut(s, j))
    {
      SuffixStep(s, i, res[i], rightProduct);
      res[i] := res[i] * rightProduct;
      rightProduct := rightProduct * nums[i];
      i := i - 1;
    }
  }

  /** One step of the second pass at position `i`: the product before `i`
      times the product after it is the product of all but `i`, and the
      product after `i` times the element at `i` is the product from `i`
      on. */
  lemma SuffixStep(s: seq<int>, i: int, before: int, after: int)
    requires 0 <= i < |s|
    requires before == Product(s[..i]) && after == Product(s[i + 1..])
    ensures before * after == Product(AllBut(s, i))
    ensures after * s[i] == Product(s[i..])
  {
    ProductAllBut(s, i);
    ProductSuffixStep(s, i);
  }

  /** The source's `main`: {1, 2, 3, 4} gives {24, 12, 8, 6}. */
  method Demo() returns (result: seq<int>)
    ensures result == [24, 12, 8, 6]
  {
    var nums := new int[4] [1, 2, 3, 4];
    var s := [1, 2, 3, 4];
    assert nums[..] == s;
    result := SmartUmn(nums);
    assert AllBut(s, 0) == [2, 3, 4] && AllBut(s, 1) == [1, 3, 4];
    assert AllBut(s, 2) == [1, 2, 4] && AllBut(s, 3) == [1, 2, 3];
    SampleProducts();
  }

  /** The products the sample of the source's `main` needs. */
  lemma SampleProducts()
    ensures Product([2, 3, 4]) == 24 && Product([1, 3, 4]) == 12
    ensures Product([1, 2, 4]) == 8 && Product([1, 2, 3]) == 6
  {
    assert [2, 3, 4][..2] == [2, 3] && [2, 3][..1] == [2] && [2][..0] == [];
    assert [1, 3, 4][..2] == [1, 3] && [1, 3][..1] == [1] && [1][..0] == [];
    assert [1, 2, 4][..2] == [1, 2] && [1, 2][..1] == [1];
    assert [1, 2, 3][..2] == [1, 2];
  }
}
