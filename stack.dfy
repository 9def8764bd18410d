/** Value-level specification of the bounded stack: its elements from bottom to
    top and the outcome of each operation. */
module StackSpec {

  /** The two conditions the stack throws on. */
  datatype StackError = Overflow | Underflow

  /** The text thrown with each error. */
  function Message(e: StackError): string
  {
    match e
    case Overflow => "Стек полон!"
    case Underflow => "Стек пуст!"
  }

  datatype Result<T> = Ok(value: T) | Err(error: StackError)

  /** `push(x)` on a stack holding `s` (bottom first) with room for `capacity`
      elements: the new contents, or `Overflow` when no slot is left. */
  function Push<T>(s: seq<T>, capacity: int, x: T): Result<seq<T>>
  {
    if |s| >= capacity then Err(Overflow) else Ok(s + [x])
  }

  /** `pop()`: the contents without the top element and that element, or
      `Underflow` on an empty stack. */
  function Pop<T>(s: seq<T>): Result<(seq<T>, T)>
  {
    if |s| == 0 then Err(Underflow) else Ok((s[..|s| - 1], s[|s| - 1]))
  }

  /** `top()`: the top element, or `Underflow` on an empty stack. */
  function Top<T>(s: seq<T>): Result<T>
  {
    if |s| == 0 then Err(Underflow) else Ok(s[|s| - 1])
  }

  /** A push on a full stack fails with `Overflow`; otherwise it succeeds,
      grows the stack by one and puts `x` on top of the old contents. */
  lemma PushOutcome<T>(s: seq<T>, capacity: int, x: T)
    ensures Push(s, capacity, x).Err? <==> |s| >= capacity
    ensures Push(s, capacity, x).Err? ==> Push(s, capacity, x).error == Overflow
    ensures Push(s, capacity, x).Ok? ==>
      var t := Push(s, capacity, x).value;
      |t| == |s| + 1 && t[..|s|] == s && Top(t) == Ok(x)
  {
  }

  /** A pop fails with `Underflow` exactly on an empty stack; otherwise it
      returns the element `top` shows and shrinks the stack by one. */
  lemma PopOutcome<T>(s: seq<T>)
    ensures Pop(s).Err? <==> |s| == 0
    ensures Pop(s).Err? ==> Pop(s).error == Underflow && Top(s) == Err(Underflow)
    ensures Pop(s).Ok? ==>
      Top(s) == Ok(Pop(s).value.1) && |Pop(s).value.0| == |s| - 1 && Pop(s).value.0 + [Pop(s).value.1] == s
  {
  }

  /** Last in, first out: a successful push followed by a pop returns the
      pushed element and gives back the contents before the push. */
  lemma PushThenPop<T>(s: seq<T>, capacity: int, x: T)
    requires |s| < capacity
    ensures Push(s, capacity, x).Ok?
    ensures Pop(Push(s, capacity, x).value) == Ok((s, x))
  {
    assert (s + [x])[..|s|] == s;
  }

  /** Pushing the elements of `xs` in turn onto a stack with room for all of
      them and then popping as many times gives them back in reverse order and
      leaves the stack as it was. */
  function PushAll<T>(s: seq<T>, capacity: int, xs: seq<T>): Result<seq<T>>
    decreases |xs|
  {
    if xs == [] then Ok(s)
    else match Push(s, capacity, xs[0])
      case Err(e) => Err(e)
      case Ok(t) => PushAll(t, capacity, xs[1..])
  }

  function PopN<T>(s: seq<T>, n: nat): Result<(seq<T>, seq<T>)>
  {
    if n == 0 then Ok((s, []))
    else match Pop(s)
      case Err(e) => Err(e)
      case Ok((t, x)) =>
        match PopN(t, n - 1)
        case Err(e) => Err(e)
        case Ok((u, ys)) => Ok((u, [x] + ys))
  }

  function Reverse<T>(xs: seq<T>): (r: seq<T>)
    ensures |r| == |xs|
  {
    if xs == [] then [] else Reverse(xs[1..]) + [xs[0]]
  }

  lemma {:induction false} PushAllContents<T>(s: seq<T>, capacity: int, xs: seq<T>)
    requires |s| + |xs| <= capacity
    ensures PushAll(s, capacity, xs) == Ok(s + xs)
    decreases |xs|
  {
    if xs == [] {
      assert s + xs == s;
    } else {
      assert Push(s, capacity, xs[0]) == Ok(s + [xs[0]]);
      PushAllContents(s + [xs[0]], capacity, xs[1..]);
      assert s + [xs[0]] + xs[1..] == s + xs;
    }
  }

  lemma {:induction false} PopNContents<T>(s: seq<T>, xs: seq<T>)
    ensures PopN(s + xs, |xs|) == Ok((s, Reverse(xs)))
    decreases |xs|
  {
    if xs == [] {
      assert s + xs == s;
    } else {
      var n := |xs|;
      var init := xs[..n - 1];
      assert s + xs == (s + init) + [xs[n - 1]];
      assert Pop(s + xs) == Ok((s + init, xs[n - 1]));
      PopNContents(s, init);
      assert PopN(s + init, n - 1) == Ok((s, Reverse(init)));
      ReverseLast(xs);
      assert PopN(s + xs, n) == Ok((s, [xs[n - 1]] + Reverse(init)));
    }
  }

  lemma {:induction false} ReverseLast<T>(xs: seq<T>)
    requires xs != []
    ensures Reverse(xs) == [xs[|xs| - 1]] + Reverse(xs[..|xs| - 1])
    decreases |xs|
  {
    if |xs| > 1 {
      ReverseLast(xs[1..]);
      assert xs[1..][..|xs| - 2] == xs[..|xs| - 1][1..];
      assert xs[..|xs| - 1][0] == xs[0];
    }
  }

  /** The LIFO law for a whole sequence of pushes. */
  lemma PushAllThenPopAll<T>(s: seq<T>, capacity: int, xs: seq<T>)
    requires |s| + |xs| <= capacity
    ensures PushAll(s, capacity, xs).Ok?
    ensures PopN(PushAll(s, capacity, xs).value, |xs|) == Ok((s, Reverse(xs)))
  {
    PushAllContents(s, capacity, xs);
    PopNContents(s, xs);
  }

  /** `0 <= size <= capacity` is kept by every operation. */
  lemma SizeStaysInBounds<T>(s: seq<T>, capacity: int, x: T)
    requires |s| <= capacity
    ensures Push(s, capacity, x).Ok? ==> |Push(s, capacity, x).value| <= capacity
    ensures Pop(s).Ok? ==> |Pop(s).value.0| <= capacity
  {
  }
}

/** The stack object: a fixed array of `Capacity` slots and the index of the
    top element, `-1` when empty. */
module BoundedStack {
  import opened StackSpec

  class Stack<T(0)> {
    const Capacity: int
    const data: array<T>
    var topIndex: int

    /** The elements on the stack, bottom first. */
    function Elements(): seq<T>
      reads this, data
      requires Valid()
    {
      data[..topIndex + 1]
    }

    predicate Valid()
      reads this
    {
      data.Length == Capacity && -1 <= topIndex < Capacity
    }

    /** A new stack is empty. The capacity is a template argument in the
        source, where a negative array size does not compile. */
    constructor (capacity: int)
      requires 0 <= capacity
      ensures Valid() && Capacity == capacity && Elements() == []
      ensures fresh(data)
    {
      Capacity := capacity;
      data := new T[capacity];
      topIndex := -1;
    }

    /** `push`: an `Overflow` error and no change on a full stack; otherwise
        the value is written into the next slot and becomes the top. */
    method Push(value: T) returns (r: Result<()>)
      requires Valid()
      modifies this, data
      ensures Valid()
      ensures match StackSpec.Push(old(Elements()), Capacity, value)
        case Err(e) => r == Err(e) && Elements() == old(Elements()) && topIndex == old(topIndex)
        case Ok(t) => r == Ok(()) && Elements() == t
    {
      if topIndex >= Capacity - 1 {
        return Err(Overflow);
      }
      topIndex := topIndex + 1;
      data[topIndex] := value;
      r := Ok(());
    }

    /** `pop`: an `Underflow` error and no change on an empty stack; otherwise
        the top element, which is no longer on the stack. */
    method Pop() returns (r: Result<T>)
      requires Valid()
      modifies this
      ensures Valid()
      ensures match StackSpec.Pop(old(Elements()))
        case Err(e) => r == Err(e) && Elements() == old(Elements())
        case Ok((t, x)) => r == Ok(x) && Elements() == t
    {
      if topIndex < 0 {
        return Err(Underflow);
      }
      r := Ok(data[topIndex]);
      topIndex := topIndex - 1;
    }

    /** `top`: the element `pop` would return, or `Underflow`. */
    function Top(): (r: Result<T>)
      reads this, data
      requires Valid()
      ensures r.Err? <==> Size() == 0
      ensures r.Ok? ==> r.value == data[Size() - 1]
      ensures r == StackSpec.Top(Elements())
    {
      if topIndex < 0 then Err(Underflow) else Ok(data[topIndex])
    }

    /** `empty` holds exactly when the size is zero. */
    function Empty(): (b: bool)
      reads this, data
      requires Valid()
      ensures b <==> Size() == 0
      ensures b <==> Elements() == []
    {
      topIndex == -1
    }

    /** `full` holds exactly when the size is the capacity. */
    function Full(): (b: bool)
      reads this, data
      requires Valid()
      ensures b <==> Size() == Capacity
    {
      topIndex == Capacity - 1
    }

    /** `size`: the number of elements, never above the capacity. */
    function Size(): (n: int)
      reads this, data
      requires Valid()
      ensures n == |Elements()|
      ensures 0 <= n <= Capacity
    {
      topIndex + 1
    }
  }

  /** The first part of the source's `main`: three pushes onto a stack of
      capacity 3, the three queries, then pops until empty. */
  method NormalRun() returns (size: int, empty: bool, full: bool, popped: seq<int>, emptyAfter: bool)
    ensures size == 3 && !empty && full
    ensures popped == [30, 20, 10] && emptyAfter
  {
    var stack := new Stack<int>(3);
    var _ := stack.Push(10);
    var _ := stack.Push(20);
    var _ := stack.Push(30);
    size, empty, full := stack.Size(), stack.Empty(), stack.Full();
    popped := [];
    while !stack.Empty()
      invariant stack.Valid()
      invariant 0 <= stack.Size() <= 3
      invariant stack.Elements() == [10, 20, 30][..stack.Size()]
      invariant |popped| == 3 - stack.Size()
      invariant forall j :: 0 <= j < |popped| ==> popped[j] == 30 - 10 * j
      decreases stack.Size()
    {
      var r := stack.Pop();
      popped := popped + [r.value];
    }
    emptyAfter := stack.Empty();
  }

  /** The second part: a third push onto a stack of capacity 2 overflows, and
      both `pop` and `top` on a new stack underflow. */
  method ErrorRun() returns (overflow: Result<()>, popEmpty: Result<int>, topEmpty: Result<int>)
    ensures overflow == Err(Overflow) && Message(overflow.error) == "Стек полон!"
    ensures popEmpty == Err(Underflow) && topEmpty == Err(Underflow)
    ensures Message(Underflow) == "Стек пуст!"
  {
    var mini := new Stack<int>(2);
    var _ := mini.Push(100);
    var _ := mini.Push(200);
    overflow := mini.Push(300);
    var empty := new Stack<int>(5);
    popEmpty := empty.Pop();
    var empty2 := new Stack<int>(5);
    topEmpty := empty2.Top();
  }

  /** The third part, on strings: `top` shows the last push, `pop` removes it,
      and `top` then shows the one below. */
  method StringRun() returns (top1: string, popped: string, top2: string)
    ensures top1 == "World" && popped == "World" && top2 == "Hello"
  {
    var stack := new Stack<string>(4);
    var _ := stack.Push("Hello");
    var _ := stack.Push("World");
    top1 := stack.Top().value;
    var r := stack.Pop();
    popped := r.value;
    top2 := stack.Top().value;
  }

  /** The fourth part: a stack of capacity 1 is full after one push and empty
      after one pop. */
  method SingleRun() returns (full: bool, popped: real, emptyAfter: bool)
    ensures full && popped == 3.14 && emptyAfter
  {
    var stack := new Stack<real>(1);
    var _ := stack.Push(3.14);
    full := stack.Full();
    var r := stack.Pop();
    popped := r.value;
    emptyAfter := stack.Empty();
  }
}
