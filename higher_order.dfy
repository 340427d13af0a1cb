/** The higher-order helpers of chapter 5: `greaterThan`, `repeat`, `unless`,
    `reduce` with and without a start value, the flattening of an array of
    arrays by `reduce`, and both versions of `loop`. What a callback prints
    is modelled as the sequence of values it reports. */
module HigherOrder {
  import opened Base

  /** `greaterThan(n)`: a closure over `n` that tests `m > n`. */
  function GreaterThan(n: int): int -> bool
  {
    m => m > n
  }

  /** `greaterThan(10)(11)` and `greaterThan(1)(2)` are both true; each
      closure keeps its own `n`, so 2 is greater than 1 but not than 10. */
  lemma GreaterThanExamples()
    ensures GreaterThan(10)(11) && GreaterThan(1)(2)
    ensures !GreaterThan(10)(2) && !GreaterThan(10)(10)
  {
  }

  // ---------------------------------------------------------------------
  // repeat and unless

  /** What `repeat(n, action)` reports: the reports of `action(0)`, ...,
      `action(n - 1)`, in that order; nothing when `n <= 0`. */
  function RepeatReports<R>(n: int, action: int -> seq<R>): seq<R>
    decreases n
  {
    if n <= 0 then [] else RepeatReports(n - 1, action) + action(n - 1)
  }

  /** `repeat(n, action)`: the loop `for (i = 0; i < n; i++) action(i)`.
      `calls` are the arguments `action` receives. */
  method Repeat<R>(n: int, action: int -> seq<R>) returns (calls: seq<int>, reports: seq<R>)
    ensures |calls| == if n <= 0 then 0 else n
    ensures forall i :: 0 <= i < |calls| ==> calls[i] == i
    ensures reports == RepeatReports(n, action)
  {
    calls := [];
    reports := [];
    var i := 0;
    while i < n
      invariant 0 <= i && (i <= n || i == 0)
      invariant |calls| == i && forall j :: 0 <= j < i ==> calls[j] == j
      invariant reports == RepeatReports(i, action)
      decreases n - i
    {
      calls := calls + [i];
      reports := reports + action(i);
      i := i + 1;
    }
  }

  /** `unless(test, then)`: runs `then` (here `action`) only when `test` is false. */
  function Unless<R>(test: bool, action: () -> seq<R>): seq<R> {
    if !test then action() else []
  }

  /** The action of the example: `unless(i % 2 == 1, () => log(i, "is even"))`. */
  function EvenAction(i: int): seq<int> {
    Unless(i % 2 == 1, () => [i])
  }

  /** `repeat(n, EvenAction)` reports exactly the even numbers below `n`,
      in increasing order. */
  lemma {:induction false} EvenReports(n: int)
    ensures forall x :: x in RepeatReports(n, EvenAction) <==> 0 <= x < n && x % 2 == 0
    ensures forall i, j :: 0 <= i < j < |RepeatReports(n, EvenAction)| ==>
      RepeatReports(n, EvenAction)[i] < RepeatReports(n, EvenAction)[j]
    ensures forall x :: x in RepeatReports(n, EvenAction) ==> x < n
    decreases n
  {
    if n > 0 {
      EvenReports(n - 1);
      var before := RepeatReports(n - 1, EvenAction);
      var last := EvenAction(n - 1);
      assert last == [] || last == [n - 1];
      var all := RepeatReports(n, EvenAction);
      assert all == before + last;
      forall i, j | 0 <= i < j < |all| ensures all[i] < all[j] {
        if j >= |before| {
          assert all[i] == before[i] && before[i] in before;
        }
      }
    }
  }

  /** The example `repeat(3, ...)`: only 0 and 2 are reported. */
  method EvenExample() returns (reports: seq<int>)
    ensures reports == [0, 2]
  {
    var calls;
    calls, reports := Repeat(3, EvenAction);
    assert RepeatReports(1, EvenAction) == [0];
    assert RepeatReports(2, EvenAction) == [0];
  }

  // ---------------------------------------------------------------------
  // reduce

  /** The left fold: `combine(...combine(combine(start, xs[0]), xs[1])..., xs[|xs| - 1])`. */
  function FoldLeft<A, B>(combine: (A, B) -> A, start: A, xs: seq<B>): A
    decreases |xs|
  {
    if xs == [] then start
    else combine(FoldLeft(combine, start, xs[..|xs| - 1]), xs[|xs| - 1])
  }

  /** `reduce(array, combine, start)`: `current` starts at `start` and is
      combined with each element in turn. */
  method Reduce<A, B>(elements: seq<B>, combine: (A, B) -> A, start: A) returns (current: A)
    ensures current == FoldLeft(combine, start, elements)
  {
    current := start;
    for i := 0 to |elements|
      invariant current == FoldLeft(combine, start, elements[..i])
    {
      assert elements[..i + 1][..i] == elements[..i];
      current := combine(current, elements[i]);
    }
    assert elements[..|elements|] == elements;
  }

  /** Folding a concatenation folds the second part from where the first
      part left off. */
  lemma {:induction false} FoldLeftAppend<A, B>(combine: (A, B) -> A, start: A, xs: seq<B>, ys: seq<B>)
    ensures FoldLeft(combine, start, xs + ys) == FoldLeft(combine, FoldLeft(combine, start, xs), ys)
    decreases |ys|
  {
    if ys == [] {
      assert xs + ys == xs;
    } else {
      FoldLeftAppend(combine, start, xs, ys[..|ys| - 1]);
      assert (xs + ys)[..|xs + ys| - 1] == xs + ys[..|ys| - 1];
    }
  }

  /** The fold is a left fold: the first element is combined with the
      start value first. */
  lemma FoldLeftFirst<A, B>(combine: (A, B) -> A, start: A, xs: seq<B>)
    requires xs != []
    ensures FoldLeft(combine, start, xs) == FoldLeft(combine, combine(start, xs[0]), xs[1..])
  {
    FoldLeftAppend(combine, start, [xs[0]], xs[1..]);
    assert [xs[0]] + xs[1..] == xs;
    assert FoldLeft(combine, start, [xs[0]]) == combine(FoldLeft(combine, start, []), xs[0]);
  }

  function Add(a: int, b: int): int {
    a + b
  }

  /** Folding with `+` adds every element to the start value. */
  lemma {:induction false} FoldAddIsSum(start: int, xs: seq<int>)
    ensures FoldLeft(Add, start, xs) == start + Sum(xs)
    decreases |xs|
  {
    if xs != [] {
      FoldAddIsSum(start, xs[..|xs| - 1]);
      SumAppend(xs[..|xs| - 1], [xs[|xs| - 1]]);
      assert xs[..|xs| - 1] + [xs[|xs| - 1]] == xs;
    }
  }

  /** The example: `reduce([1, 2, 3, 4], (a, b) => a + b, 0)` is 10. */
  method ReduceExample() returns (total: int)
    ensures total == 10
  {
    total := Reduce([1, 2, 3, 4], Add, 0);
    FoldAddIsSum(0, [1, 2, 3, 4]);
  }

  /** `array.reduce(combine)` with no start value: a `TypeError` (`None`)
      on an empty array, otherwise the fold that starts from the first
      element. */
  function ReduceFirst<A>(elements: seq<A>, combine: (A, A) -> A): (r: Option<A>)
    ensures r.None? <==> elements == []
  {
    if elements == [] then None else Some(FoldLeft(combine, elements[0], elements[1..]))
  }

  // ---------------------------------------------------------------------
  // Flattening

  function Concat<T>(a: seq<T>, b: seq<T>): seq<T> {
    a + b
  }

  /** The arrays of `arrays` one after the other. */
  function Flatten<T>(arrays: seq<seq<T>>): seq<T>
    decreases |arrays|
  {
    if arrays == [] then [] else arrays[0] + Flatten(arrays[1..])
  }

  lemma {:induction false} FlattenAppend<T>(arrays: seq<seq<T>>, last: seq<T>)
    ensures Flatten(arrays + [last]) == Flatten(arrays) + last
    decreases |arrays|
  {
    if arrays == [] {
      assert Flatten([last]) == last + Flatten([]);
    } else {
      FlattenAppend(arrays[1..], last);
      assert (arrays + [last])[1..] == arrays[1..] + [last];
    }
  }

  /** The elements of the flattening are the elements of the arrays. */
  lemma {:induction false} FlattenElements<T>(arrays: seq<seq<T>>)
    ensures forall x :: x in Flatten(arrays) <==> exists a :: a in arrays && x in a
    decreases |arrays|
  {
    if arrays != [] {
      FlattenElements(arrays[1..]);
      assert forall a :: a in arrays <==> a == arrays[0] || a in arrays[1..];
    }
  }

  lemma {:induction false} FoldConcat<T>(start: seq<T>, arrays: seq<seq<T>>)
    ensures FoldLeft(Concat, start, arrays) == start + Flatten(arrays)
    decreases |arrays|
  {
    if arrays == [] {
      assert start + [] == start;
    } else {
      var init := arrays[..|arrays| - 1];
      FoldConcat(start, init);
      FlattenAppend(init, arrays[|arrays| - 1]);
      assert init + [arrays[|arrays| - 1]] == arrays;
    }
  }

  /** `arrays.reduce((a, b) => a.concat(b))` flattens a non-empty array of
      arrays, and throws on an empty one. */
  lemma FlattenByReduce<T>(arrays: seq<seq<T>>)
    ensures ReduceFirst(arrays, Concat) == if arrays == [] then None else Some(Flatten(arrays))
  {
    if arrays != [] {
      FoldConcat(arrays[0], arrays[1..]);
    }
  }

  /** The exercise's example: `[[1, 2, 3], [4, 5], [6]]` flattens to
      `[1, 2, 3, 4, 5, 6]`. */
  lemma FlattenExample()
    ensures ReduceFirst([[1, 2, 3], [4, 5], [6]], Concat) == Some([1, 2, 3, 4, 5, 6])
  {
    var arrays := [[1, 2, 3], [4, 5], [6]];
    FlattenByReduce(arrays);
    assert arrays[1..][1..] == [[6]] && arrays[1..] == [[4, 5], [6]];
    assert Flatten([[6]]) == [6] + Flatten([]);
    assert Flatten([[4, 5], [6]]) == [4, 5] + Flatten([[6]]) == [4, 5, 6];
    assert Flatten(arrays) == [1, 2, 3] + Flatten(arrays[1..]) == [1, 2, 3, 4, 5, 6];
  }

  // ---------------------------------------------------------------------
  // loop

  /** `update` applied `k` times. */
  function Iterate<T>(update: T -> T, value: T, k: nat): T
    decreases k
  {
    if k == 0 then value else Iterate(update, update(value), k - 1)
  }

  /** One more step applies `update` once more to the result. */
  lemma {:induction false} IterateSucc<T>(update: T -> T, value: T, k: nat)
    ensures Iterate(update, value, k + 1) == update(Iterate(update, value, k))
    decreases k
  {
    if k > 0 {
      IterateSucc(update, update(value), k - 1);
    }
  }

  /** What `body` is called with, as `visits`: `value`, `update(value)`, ...,
      each passing `test`, and `test` fails on the next one. */
  ghost predicate LoopTrace<T>(value: T, test: T -> bool, update: T -> T, visits: seq<T>) {
    (forall j :: 0 <= j < |visits| ==> visits[j] == Iterate(update, value, j) && test(visits[j]))
    && !test(Iterate(update, value, |visits|))
  }

  /** The values the recursive `loop(value, test, update, body)` calls
      `body` with: `value`, then those of `loop(update(value), ...)`, as long
      as `test` holds. The loop ends only when some value it reaches fails
      `test`; `bound` is a number of steps after which that has happened. */
  function LoopRec<T>(value: T, test: T -> bool, update: T -> T, ghost bound: nat): seq<T>
    requires !test(Iterate(update, value, bound))
    decreases bound
  {
    if test(value) then [value] + LoopRec(update(value), test, update, bound - 1) else []
  }

  /** The recursive `loop` calls `body` on the values of the trace, and on
      no more than `bound` of them. */
  lemma {:induction false} LoopVisits<T>(value: T, test: T -> bool, update: T -> T, bound: nat)
    requires !test(Iterate(update, value, bound))
    ensures LoopTrace(value, test, update, LoopRec(value, test, update, bound))
    ensures |LoopRec(value, test, update, bound)| <= bound
    decreases bound
  {
    if test(value) {
      LoopVisits(update(value), test, update, bound - 1);
      var visits := LoopRec(value, test, update, bound);
      forall j | 0 <= j < |visits|
        ensures visits[j] == Iterate(update, value, j) && test(visits[j])
      {
        if j > 0 {
          assert visits[j] == LoopRec(update(value), test, update, bound - 1)[j - 1];
        }
      }
    }
  }

  /** Only one sequence is a trace, so the recursive `loop` visits the same
      values whichever bound is used. */
  lemma {:induction false} LoopTraceUnique<T>(value: T, test: T -> bool, update: T -> T, bound: nat, visits: seq<T>)
    requires !test(Iterate(update, value, bound))
    requires LoopTrace(value, test, update, visits)
    ensures visits == LoopRec(value, test, update, bound)
    decreases bound
  {
    if test(value) {
      assert visits[0] == Iterate(update, value, 0);
      forall j | 0 <= j < |visits[1..]|
        ensures visits[1..][j] == Iterate(update, update(value), j) && test(visits[1..][j])
      {
        assert visits[j + 1] == Iterate(update, value, j + 1);
      }
      assert Iterate(update, update(value), |visits[1..]|) == Iterate(update, value, |visits|);
      LoopTraceUnique(update(value), test, update, bound - 1, visits[1..]);
      assert visits == [visits[0]] + visits[1..];
    }
  }

  /** The iterative `loop`: `for (let i = value; test(i); i = update(i)) body(i)`.
      It calls `body` on the values of the trace, which are those the
      recursive `loop` calls it on. */
  method LoopIter<T>(value: T, test: T -> bool, update: T -> T) returns (visits: seq<T>)
    requires exists k: nat :: !test(Iterate(update, value, k))
    ensures LoopTrace(value, test, update, visits)
    ensures forall bound: nat :: !test(Iterate(update, value, bound)) ==>
      visits == LoopRec(value, test, update, bound)
  {
    ghost var k: nat :| !test(Iterate(update, value, k));
    visits := [];
    var i := value;
    while test(i)
      invariant |visits| <= k && i == Iterate(update, value, |visits|)
      invariant forall j :: 0 <= j < |visits| ==> visits[j] == Iterate(update, value, j) && test(visits[j])
      decreases k - |visits|
    {
      IterateSucc(update, value, |visits|);
      visits := visits + [i];
      i := update(i);
    }
    forall bound: nat | !test(Iterate(update, value, bound))
      ensures visits == LoopRec(value, test, update, bound)
    {
      LoopTraceUnique(value, test, update, bound, visits);
    }
  }

  function Decrement(n: int): int {
    n - 1
  }

  function NonZero(n: int): bool {
    n != 0
  }

  /** `loop(5, n => n != 0, n => n - 1, body)` calls `body` with 5, 4, 3,
      2 and 1, although the test holds on every negative number. */
  method CountdownExample() returns (visits: seq<int>)
    ensures visits == [5, 4, 3, 2, 1]
  {
    assert Iterate(Decrement, 5, 5) == 0;
    visits := LoopIter(5, NonZero, Decrement);
    assert Iterate(Decrement, 5, 1) == 4 && Iterate(Decrement, 5, 2) == 3;
    assert Iterate(Decrement, 5, 3) == 2 && Iterate(Decrement, 5, 4) == 1;
    assert |visits| == 5;
  }
}
