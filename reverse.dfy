/** `reverse` of chapter 20: `Array.from(string)`, which splits a string
    into its code points, then `reverse()` and `join("")`. A `string` here
    is a sequence of code points. */
module Reverse {

  /** `Array.from(string)`: one single-code-point string per code point. */
  function ArrayFrom(s: string): seq<string>
  {
    seq(|s|, i requires 0 <= i < |s| => [s[i]])
  }

  /** `Array.prototype.reverse`. */
  function ArrayReverse<T>(xs: seq<T>): (r: seq<T>)
    ensures |r| == |xs|
    ensures forall i :: 0 <= i < |xs| ==> r[i] == xs[|xs| - 1 - i]
  {
    if xs == [] then [] else ArrayReverse(xs[1..]) + [xs[0]]
  }

  /** `join("")`: the parts one after another. */
  function JoinEmpty(parts: seq<string>): string {
    if parts == [] then "" else parts[0] + JoinEmpty(parts[1..])
  }

  /** Joining single code points gives back the code points. */
  lemma {:induction false} JoinCodePoints(parts: seq<string>, s: string)
    requires |parts| == |s|
    requires forall i :: 0 <= i < |s| ==> parts[i] == [s[i]]
    ensures JoinEmpty(parts) == s
  {
    if parts != [] {
      JoinCodePoints(parts[1..], s[1..]);
      assert s == [s[0]] + s[1..];
    }
  }

  /** `Array.from(s).join("")` gives `s` back. */
  lemma ArrayFromJoin(s: string)
    ensures JoinEmpty(ArrayFrom(s)) == s
  {
    JoinCodePoints(ArrayFrom(s), s);
  }

  /** `reverse(string)`. */
  function ReverseString(s: string): string {
    JoinEmpty(ArrayReverse(ArrayFrom(s)))
  }

  /** The result has as many code points as the input, code point `i` of
      the result being code point `n - 1 - i` of the input. */
  lemma ReverseSpec(s: string)
    ensures |ReverseString(s)| == |s|
    ensures forall i :: 0 <= i < |s| ==> ReverseString(s)[i] == s[|s| - 1 - i]
  {
    var parts := ArrayReverse(ArrayFrom(s));
    var r := seq(|s|, i requires 0 <= i < |s| => s[|s| - 1 - i]);
    JoinCodePoints(parts, r);
  }

  /** Reversing twice gives the input back. */
  lemma ReverseInvolution(s: string)
    ensures ReverseString(ReverseString(s)) == s
  {
    ReverseSpec(s);
    ReverseSpec(ReverseString(s));
  }

  /** The empty string reverses to itself; "abc" reverses to "cba". */
  lemma ReverseExamples()
    ensures ReverseString("") == ""
    ensures ReverseString("abc") == "cba"
  {
    ReverseSpec("abc");
  }
}
