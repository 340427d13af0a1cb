/** Shared vocabulary of the model: an Option for JavaScript's `null` and
    `undefined` results, the first-appearance de-duplication that
    `journalEvents`, `Group.from` and `countBy` all perform, sums, and the
    decimal rendering and parsing of integers that `Number(...)` and string
    concatenation perform. */
module Base {

  datatype Option<T> = None | Some(value: T)

  /** No element occurs twice. */
  predicate NoDup<T(==)>(s: seq<T>) {
    forall i, j :: 0 <= i < j < |s| ==> s[i] != s[j]
  }

  /** The distinct elements of `xs`, each kept at its first appearance:
      the list built by scanning `xs` and pushing every element that is not
      already present. */
  function Dedup<T(==)>(xs: seq<T>): seq<T>
    decreases |xs|
  {
    if xs == [] then []
    else
      var prefix := Dedup(xs[..|xs| - 1]);
      if xs[|xs| - 1] in prefix then prefix else prefix + [xs[|xs| - 1]]
  }

  /** Index of the first occurrence of `x` in `xs`. */
  function FirstIndex<T(==)>(xs: seq<T>, x: T): (k: nat)
    requires x in xs
    ensures k < |xs| && xs[k] == x && x !in xs[..k]
  {
    if xs[0] == x then 0 else 1 + FirstIndex(xs[1..], x)
  }

  lemma {:induction false} FirstIndexSnoc<T>(xs: seq<T>, y: T, x: T)
    requires x in xs
    ensures FirstIndex(xs + [y], x) == FirstIndex(xs, x)
  {
    if xs[0] != x {
      assert (xs + [y])[1..] == xs[1..] + [y];
      FirstIndexSnoc(xs[1..], y, x);
    }
  }

  lemma {:induction false} FirstIndexAtEnd<T>(xs: seq<T>, x: T)
    requires x !in xs
    ensures FirstIndex(xs + [x], x) == |xs|
  {
    if xs != [] {
      assert (xs + [x])[1..] == xs[1..] + [x];
      FirstIndexAtEnd(xs[1..], x);
    }
  }

  /** Dedup keeps exactly the elements of its input. */
  lemma {:induction false} DedupSameElements<T>(xs: seq<T>)
    ensures forall x :: x in Dedup(xs) <==> x in xs
  {
    if xs != [] {
      var init := xs[..|xs| - 1];
      DedupSameElements(init);
      assert xs == init + [xs[|xs| - 1]];
    }
  }

  /** Dedup never keeps an element twice. */
  lemma {:induction false} DedupNoDup<T>(xs: seq<T>)
    ensures NoDup(Dedup(xs))
  {
    if xs != [] {
      DedupNoDup(xs[..|xs| - 1]);
    }
  }

  /** Dedup lists its elements in the order of their first appearance. */
  lemma {:induction false} DedupFirstAppearanceOrder<T>(xs: seq<T>)
    ensures forall x :: x in Dedup(xs) ==> x in xs
    ensures forall i, j :: 0 <= i < j < |Dedup(xs)| ==>
      FirstIndex(xs, Dedup(xs)[i]) < FirstIndex(xs, Dedup(xs)[j])
  {
    DedupSameElements(xs);
    if xs != [] {
      var init, last := xs[..|xs| - 1], xs[|xs| - 1];
      assert xs == init + [last];
      DedupFirstAppearanceOrder(init);
      DedupSameElements(init);
      var p := Dedup(init);
      forall i | 0 <= i < |p| ensures FirstIndex(xs, p[i]) == FirstIndex(init, p[i]) < |init| {
        FirstIndexSnoc(init, last, p[i]);
      }
      if last !in p {
        FirstIndexAtEnd(init, last);
        DedupOrderAppend(xs, p, last);
      }
    }
  }

  lemma DedupOrderAppend<T>(xs: seq<T>, p: seq<T>, last: T)
    requires forall x :: x in p ==> x in xs
    requires last in xs
    requires forall i, j :: 0 <= i < j < |p| ==> FirstIndex(xs, p[i]) < FirstIndex(xs, p[j])
    requires forall i :: 0 <= i < |p| ==> FirstIndex(xs, p[i]) < FirstIndex(xs, last)
    ensures forall i, j :: 0 <= i < j < |p + [last]| ==>
      FirstIndex(xs, (p + [last])[i]) < FirstIndex(xs, (p + [last])[j])
  {
    forall i, j | 0 <= i < j < |p + [last]|
      ensures FirstIndex(xs, (p + [last])[i]) < FirstIndex(xs, (p + [last])[j])
    {
      assert (p + [last])[i] == p[i];
      if j < |p| {
        assert (p + [last])[j] == p[j];
      }
    }
  }

  /** A list that already has no duplicates is its own Dedup. */
  lemma {:induction false} DedupOfDistinct<T>(xs: seq<T>)
    requires NoDup(xs)
    ensures Dedup(xs) == xs
  {
    if xs != [] {
      var init := xs[..|xs| - 1];
      assert NoDup(init);
      DedupOfDistinct(init);
      assert xs[|xs| - 1] !in init;
      assert init + [xs[|xs| - 1]] == xs;
    }
  }

  /** Removes every occurrence of `v`, keeping the order of the rest
      (`members.filter(e => e !== v)`). */
  function Remove<T(==)>(s: seq<T>, v: T): (r: seq<T>)
    ensures |r| <= |s|
  {
    if s == [] then []
    else if s[0] == v then Remove(s[1..], v)
    else [s[0]] + Remove(s[1..], v)
  }

  /** What Remove leaves: every other element, and no copy of `v`. */
  lemma {:induction false} RemoveElements<T>(s: seq<T>, v: T)
    ensures forall x :: x in Remove(s, v) <==> x in s && x != v
  {
    if s != [] {
      RemoveElements(s[1..], v);
    }
  }

  /** Removing from a distinct list keeps it distinct. */
  lemma {:induction false} RemoveNoDup<T>(s: seq<T>, v: T)
    requires NoDup(s)
    ensures NoDup(Remove(s, v))
  {
    if s != [] {
      assert NoDup(s[1..]);
      RemoveNoDup(s[1..], v);
      RemoveElements(s[1..], v);
      assert s[0] !in s[1..];
    }
  }

  /** Removing an absent value changes nothing. */
  lemma {:induction false} RemoveAbsent<T>(s: seq<T>, v: T)
    requires v !in s
    ensures Remove(s, v) == s
  {
    if s != [] {
      RemoveAbsent(s[1..], v);
      assert [s[0]] + s[1..] == s;
    }
  }

  function Sum(s: seq<int>): int {
    if s == [] then 0 else s[0] + Sum(s[1..])
  }

  lemma {:induction false} SumAppend(a: seq<int>, b: seq<int>)
    ensures Sum(a + b) == Sum(a) + Sum(b)
  {
    if a == [] {
      assert a + b == b;
    } else {
      SumAppend(a[1..], b);
      assert (a + b)[1..] == a[1..] + b;
    }
  }

  // ---------------------------------------------------------------------
  // Decimal strings

  predicate IsDigit(c: char) {
    '0' <= c <= '9'
  }

  function DigitChar(d: nat): (c: char)
    requires d < 10
    ensures IsDigit(c) && c as int - '0' as int == d
  {
    (d + '0' as int) as char
  }

  /** The decimal rendering of a natural number, as `String(n)` gives it. */
  function NatToString(n: nat): (s: string)
    ensures |s| >= 1 && forall i :: 0 <= i < |s| ==> IsDigit(s[i])
    ensures |s| > 1 ==> s[0] != '0'
    decreases n
  {
    if n < 10 then [DigitChar(n)] else NatToString(n / 10) + [DigitChar(n % 10)]
  }

  /** The decimal rendering of an integer, with a leading '-' when negative. */
  function IntToString(n: int): string {
    if n < 0 then "-" + NatToString(-n) else NatToString(n)
  }

  /** The value of a string of decimal digits, as `Number(s)` computes it. */
  function DigitsValue(s: string): nat
    requires forall i :: 0 <= i < |s| ==> IsDigit(s[i])
    decreases |s|
  {
    if s == [] then 0
    else
      assert IsDigit(s[|s| - 1]);
      DigitsValue(s[..|s| - 1]) * 10 + (s[|s| - 1] as int - '0' as int)
  }

  /** Parsing a rendered number gives the number back. */
  lemma {:induction false} DigitsValueOfNatToString(n: nat)
    ensures DigitsValue(NatToString(n)) == n
    decreases n
  {
    if n >= 10 {
      DigitsValueOfNatToString(n / 10);
      var s := NatToString(n);
      assert s[..|s| - 1] == NatToString(n / 10);
    }
  }

  /** Rendering a parsed digit string without a superfluous leading zero
      gives the string back. */
  lemma {:induction false} NatToStringOfDigitsValue(s: string)
    requires |s| >= 1 && forall i :: 0 <= i < |s| ==> IsDigit(s[i])
    requires |s| > 1 ==> s[0] != '0'
    ensures NatToString(DigitsValue(s)) == s
    decreases |s|
  {
    var init, last := s[..|s| - 1], s[|s| - 1];
    var d := last as int - '0' as int;
    if |s| == 1 {
      assert DigitsValue(s) == d;
      assert [DigitChar(d)] == s;
    } else {
      assert init[0] == s[0];
      NatToStringOfDigitsValue(init);
      DigitsValuePositive(init);
      var n := DigitsValue(s);
      assert n == DigitsValue(init) * 10 + d;
      assert n / 10 == DigitsValue(init) && n % 10 == d;
      assert NatToString(n) == init + [last];
    }
  }

  lemma {:induction false} DigitsValuePositive(s: string)
    requires |s| >= 1 && forall i :: 0 <= i < |s| ==> IsDigit(s[i])
    requires s[0] != '0'
    ensures DigitsValue(s) >= 1
    decreases |s|
  {
    if |s| > 1 {
      DigitsValuePositive(s[..|s| - 1]);
    }
  }
}
