/** The string replacements of chapter 9: `minusOne` and the global rewrite
    of `(\d+) (\w+)` it drives, and the first and global replacement of a
    character class. The regular expressions are modelled by explicit
    scanners with the leftmost, greedy matching the engine performs. */
module Quantities {
  import opened Base

  // ---------------------------------------------------------------------
  // minusOne

  /** `minusOne(match, amount, unit)` for a matched run of digits `amount`:
      one less, with "no" for none and the unit's last character (its
      plural "s") dropped for exactly one. */
  function MinusOne(amount: string, unit: string): string
    requires AllDigits(amount)
  {
    var left := DigitsValue(amount) - 1;
    if left == 1 then IntToString(left) + " " + (if |unit| == 0 then "" else unit[..|unit| - 1])
    else if left == 0 then "no " + unit
    else IntToString(left) + " " + unit
  }

  /** For an amount written `n`, `minusOne` writes `n - 1`, "1" with the
      unit shortened, or "no" with the unit kept; a written "0" becomes
      "-1". */
  lemma MinusOneDecrements(n: nat, unit: string)
    ensures n >= 3 ==> MinusOne(NatToString(n), unit) == NatToString(n - 1) + " " + unit
    ensures n == 2 && |unit| >= 1 ==> MinusOne(NatToString(n), unit) == "1 " + unit[..|unit| - 1]
    ensures n == 1 ==> MinusOne(NatToString(n), unit) == "no " + unit
    ensures n == 0 ==> MinusOne(NatToString(n), unit) == "-1 " + unit
  {
    DigitsValueOfNatToString(n);
  }

  /** The number `minusOne` writes reads back as one less than the amount,
      whenever it is written as a number. */
  lemma MinusOneReadsBack(amount: string, unit: string)
    requires |amount| >= 1 && forall i :: 0 <= i < |amount| ==> IsDigit(amount[i])
    requires DigitsValue(amount) >= 2
    ensures var written := NatToString(DigitsValue(amount) - 1);
      MinusOne(amount, unit)[..|written|] == written && DigitsValue(written) == DigitsValue(amount) - 1
  {
    DigitsValueOfNatToString(DigitsValue(amount) - 1);
  }

  // ---------------------------------------------------------------------
  // The scanner for /(\d+) (\w+)/g

  /** `\w`: a letter, a digit or an underscore. */
  predicate IsWord(c: char) {
    'a' <= c <= 'z' || 'A' <= c <= 'Z' || IsDigit(c) || c == '_'
  }

  /** `\d+` applies: every character is a digit. */
  predicate AllDigits(s: string) {
    forall p :: 0 <= p < |s| ==> IsDigit(s[p])
  }

  /** The length of the run of digits that starts at position `i` of `s`. */
  function DigitRun(s: string, i: nat): (n: nat)
    requires i <= |s|
    ensures i + n <= |s|
    decreases |s| - i
  {
    if i < |s| && IsDigit(s[i]) then 1 + DigitRun(s, i + 1) else 0
  }

  /** The digit run is all digits and is followed by none. */
  lemma {:induction false} DigitRunSpec(s: string, i: nat)
    requires i <= |s|
    ensures forall p :: i <= p < i + DigitRun(s, i) ==> IsDigit(s[p])
    ensures i + DigitRun(s, i) < |s| ==> !IsDigit(s[i + DigitRun(s, i)])
    decreases |s| - i
  {
    if i < |s| && IsDigit(s[i]) {
      DigitRunSpec(s, i + 1);
    }
  }

  /** The length of the run of word characters that starts at position `i`. */
  function WordRun(s: string, i: nat): (n: nat)
    requires i <= |s|
    ensures i + n <= |s|
    decreases |s| - i
  {
    if i < |s| && IsWord(s[i]) then 1 + WordRun(s, i + 1) else 0
  }

  /** The word run is all word characters and is followed by none. */
  lemma {:induction false} WordRunSpec(s: string, i: nat)
    requires i <= |s|
    ensures forall p :: i <= p < i + WordRun(s, i) ==> IsWord(s[p])
    ensures i + WordRun(s, i) < |s| ==> !IsWord(s[i + WordRun(s, i)])
    decreases |s| - i
  {
    if i < |s| && IsWord(s[i]) {
      WordRunSpec(s, i + 1);
    }
  }

  /** `s[i..k]` matches `(\d+) (\w+)`, with the space at `j`. */
  ghost predicate Matches(s: string, i: int, j: int, k: int) {
    0 <= i < j && j + 1 < k <= |s|
    && (forall p :: i <= p < j ==> IsDigit(s[p]))
    && s[j] == ' '
    && (forall p :: j + 1 <= p < k ==> IsWord(s[p]))
  }

  /** The match of the pattern that starts at position `i`, as the engine
      finds it: the space position and the end of the match. The digit
      run cannot give any digits back (a space never follows a shorter
      run), and the word run takes every word character it can. */
  function MatchAt(s: string, i: nat): (r: Option<(nat, nat)>)
    requires i <= |s|
    ensures r.Some? ==> i < r.value.0 && r.value.0 + 1 < r.value.1 <= |s|
    ensures r.Some? ==> AllDigits(s[i..r.value.0])
  {
    DigitRunSpec(s, i);
    var j := i + DigitRun(s, i);
    if i < j < |s| - 1 && s[j] == ' ' && WordRun(s, j + 1) >= 1 then
      Some((j, j + 1 + WordRun(s, j + 1)))
    else
      None
  }

  /** A match the engine finds is a match of the pattern that cannot be
      extended; when it finds none, no match starts at `i`. */
  lemma MatchAtSpec(s: string, i: nat)
    requires i <= |s|
    ensures MatchAt(s, i).Some? ==> Matches(s, i, MatchAt(s, i).value.0, MatchAt(s, i).value.1)
    ensures MatchAt(s, i).Some? ==> MatchAt(s, i).value.1 == |s| || !IsWord(s[MatchAt(s, i).value.1])
    ensures MatchAt(s, i).None? ==> forall j, k :: !Matches(s, i, j, k)
  {
    DigitRunSpec(s, i);
    var j := i + DigitRun(s, i);
    if j + 1 <= |s| {
      WordRunSpec(s, j + 1);
    }
    if MatchAt(s, i).None? {
      forall j', k | Matches(s, i, j', k) ensures false {
      }
    }
  }

  /** Only the match the engine finds starts at `i`: any match of the
      pattern there ends inside it or at its end, and the spaces agree. */
  lemma MatchAtLongest(s: string, i: nat, j: int, k: int)
    requires Matches(s, i, j, k)
    ensures MatchAt(s, i).Some? && MatchAt(s, i).value.0 == j && k <= MatchAt(s, i).value.1
  {
    MatchAtSpec(s, i);
    var m := MatchAt(s, i);
    if m.Some? {
      var (j', k') := m.value;
      assert s[j] == ' ' && s[j'] == ' ';
    }
  }

  /** A function `replace` may call for a match: one that accepts any run
      of digits as the amount, as `minusOne` does. */
  ghost predicate Replacer(f: (string, string) --> string) {
    forall amount, unit :: AllDigits(amount) ==> f.requires(amount, unit)
  }

  /** `text.replace(/(\d+) (\w+)/g, f)` from position `i` on: from left to
      right, every match is replaced by `f` of its two groups and scanning
      goes on after it; other characters are copied. */
  function RewriteFrom(s: string, i: nat, f: (string, string) --> string): string
    requires i <= |s| && Replacer(f)
    decreases |s| - i
  {
    if i == |s| then []
    else
      var m := MatchAt(s, i);
      if m.Some? then
        f(s[i..m.value.0], s[m.value.0 + 1..m.value.1]) + RewriteFrom(s, m.value.1, f)
      else
        [s[i]] + RewriteFrom(s, i + 1, f)
  }

  /** `stock.replace(/(\d+) (\w+)/g, minusOne)`. */
  function Rewrite(s: string): string {
    RewriteFrom(s, 0, MinusOne)
  }

  /** Text without digits has nothing to rewrite. */
  lemma {:induction false} RewriteWithoutDigits(s: string, i: nat, f: (string, string) --> string)
    requires i <= |s| && Replacer(f) && forall p :: i <= p < |s| ==> !IsDigit(s[p])
    ensures RewriteFrom(s, i, f) == s[i..]
    decreases |s| - i
  {
    if i < |s| {
      assert DigitRun(s, i) == 0;
      RewriteWithoutDigits(s, i + 1, f);
      assert s[i..] == [s[i]] + s[i + 1..];
    }
  }

  /** A character that starts no match is copied. */
  lemma RewriteCopies(s: string, i: nat, f: (string, string) --> string)
    requires i < |s| && Replacer(f) && !IsDigit(s[i])
    ensures RewriteFrom(s, i, f) == [s[i]] + RewriteFrom(s, i + 1, f)
  {
    assert DigitRun(s, i) == 0;
  }

  /** A run of characters that are not digits is copied. */
  lemma {:induction false} RewriteCopiesRun(s: string, i: nat, n: nat, f: (string, string) --> string)
    requires i + n <= |s| && Replacer(f) && forall p :: i <= p < i + n ==> !IsDigit(s[p])
    ensures RewriteFrom(s, i, f) == s[i..i + n] + RewriteFrom(s, i + n, f)
    decreases n
  {
    if n > 0 {
      RewriteCopies(s, i, f);
      RewriteCopiesRun(s, i + 1, n - 1, f);
      assert s[i..i + n] == [s[i]] + s[i + 1..i + n];
    }
  }

  /** A character where no match starts is copied. */
  lemma RewriteUnmatched(s: string, i: nat, f: (string, string) --> string)
    requires i < |s| && Replacer(f) && MatchAt(s, i).None?
    ensures RewriteFrom(s, i, f) == [s[i]] + RewriteFrom(s, i + 1, f)
  {
  }

  /** A match is replaced by `f` of its groups. */
  lemma RewriteMatch(s: string, i: nat, j: nat, k: nat, f: (string, string) --> string)
    requires i < |s| && Replacer(f) && MatchAt(s, i) == Some((j, k))
    ensures RewriteFrom(s, i, f) == f(s[i..j], s[j + 1..k]) + RewriteFrom(s, k, f)
  {
  }

  /** A run of `n` digits not followed by a digit is the digit run. */
  lemma {:induction false} DigitRunExact(s: string, i: nat, n: nat)
    requires i + n <= |s| && (forall p :: i <= p < i + n ==> IsDigit(s[p]))
    requires i + n == |s| || !IsDigit(s[i + n])
    ensures DigitRun(s, i) == n
    decreases n
  {
    if n > 0 {
      DigitRunExact(s, i + 1, n - 1);
    }
  }

  /** A run of `n` word characters not followed by one is the word run. */
  lemma {:induction false} WordRunExact(s: string, i: nat, n: nat)
    requires i + n <= |s| && (forall p :: i <= p < i + n ==> IsWord(s[p]))
    requires i + n == |s| || !IsWord(s[i + n])
    ensures WordRun(s, i) == n
    decreases n
  {
    if n > 0 {
      WordRunExact(s, i + 1, n - 1);
    }
  }

  /** A greedy match at position `i` is the one the engine finds. */
  lemma MatchAtExact(s: string, i: nat, j: nat, k: nat)
    requires Matches(s, i, j, k) && (k == |s| || !IsWord(s[k]))
    ensures MatchAt(s, i) == Some((j, k))
  {
    DigitRunExact(s, i, j - i);
    WordRunExact(s, j + 1, k - j - 1);
  }

  // The scan looks only forward, so text in front of a position does not
  // change what is rewritten from there on.

  /** The digit and word runs are the same after a prefix. */
  lemma {:induction false} DigitRunShift(p: string, r: string, i: nat)
    requires i <= |r|
    ensures DigitRun(p + r, |p| + i) == DigitRun(r, i)
    decreases |r| - i
  {
    if i < |r| {
      assert (p + r)[|p| + i] == r[i];
      DigitRunShift(p, r, i + 1);
    }
  }

  lemma {:induction false} WordRunShift(p: string, r: string, i: nat)
    requires i <= |r|
    ensures WordRun(p + r, |p| + i) == WordRun(r, i)
    decreases |r| - i
  {
    if i < |r| {
      assert (p + r)[|p| + i] == r[i];
      WordRunShift(p, r, i + 1);
    }
  }

  /** A match result moved `n` positions along. */
  function ShiftMatch(m: Option<(nat, nat)>, n: nat): Option<(nat, nat)> {
    if m.Some? then Some((m.value.0 + n, m.value.1 + n)) else None
  }

  /** The match at a position of `r` is the one at the moved position of
      `p + r`. */
  lemma MatchAtShift(p: string, r: string, i: nat)
    requires i <= |r|
    ensures MatchAt(p + r, |p| + i) == ShiftMatch(MatchAt(r, i), |p|)
  {
    DigitRunShift(p, r, i);
    var j := i + DigitRun(r, i);
    if j < |r| {
      assert (p + r)[|p| + j] == r[j];
      WordRunShift(p, r, j + 1);
    }
  }

  /** In `q`, the text `r` after a prefix `p`, a character of `r` where no
      match starts is copied. */
  lemma RewriteShiftUnmatched(q: string, p: string, r: string, i: nat, f: (string, string) --> string)
    requires q == p + r && i < |r| && Replacer(f) && MatchAt(r, i).None?
    ensures RewriteFrom(q, |p| + i, f) == [r[i]] + RewriteFrom(q, |p| + i + 1, f)
  {
    MatchAtShift(p, r, i);
    RewriteUnmatched(q, |p| + i, f);
    assert q[|p| + i] == r[i];
  }

  lemma MatchAtRewriteShiftMatch(q: string, p: string, r: string, i: nat, j: nat, k: nat)
    requires q == p + r && i < |r| && MatchAt(r, i) == Some((j, k))
    ensures MatchAt(q, |p| + i) == Some((|p| + j, |p| + k))
  {
    MatchAtShift(p, r, i);
  }

  /** The slices of `r` are the moved slices of `q`. */
  lemma SliceShift(q: string, p: string, r: string, i: nat, j: nat)
    requires q == p + r && i <= j <= |r|
    ensures q[|p| + i..|p| + j] == r[i..j]
  {
  }

  /** A match found in `r` is handed to the replacer with the same groups
      in `q`. */
  lemma RewriteShiftMatch(q: string, p: string, r: string, i: nat, j: nat, k: nat, f: (string, string) --> string)
    requires q == p + r && i < |r| && Replacer(f) && MatchAt(r, i) == Some((j, k))
    ensures RewriteFrom(q, |p| + i, f) == f(r[i..j], r[j + 1..k]) + RewriteFrom(q, |p| + k, f)
  {
    MatchAtRewriteShiftMatch(q, p, r, i, j, k);
    RewriteMatch(q, |p| + i, |p| + j, |p| + k, f);
    SliceShift(q, p, r, i, j);
    SliceShift(q, p, r, j + 1, k);
  }

  /** Rewriting from a position depends only on the text from there on:
      in `q`, the text `r` after a prefix `p`, it is as in `r` alone. */
  lemma {:induction false} RewriteShift(q: string, p: string, r: string, i: nat, f: (string, string) --> string)
    requires q == p + r && i <= |r| && Replacer(f)
    ensures RewriteFrom(q, |p| + i, f) == RewriteFrom(r, i, f)
    decreases |r| - i
  {
    if i < |r| {
      var m := MatchAt(r, i);
      if m.Some? {
        var (j, k) := m.value;
        RewriteMatch(r, i, j, k, f);
        RewriteShiftMatch(q, p, r, i, j, k, f);
        RewriteShift(q, p, r, k, f);
      } else {
        RewriteUnmatched(r, i, f);
        RewriteShiftUnmatched(q, p, r, i, f);
        RewriteShift(q, p, r, i + 1, f);
      }
    }
  }
  // ---------------------------------------------------------------------
  // The example

  const Stock := "1 lemon, 2 cabbages, and 101 eggs"

  /** `minusOne` of the three quantities of the stock string. */
  lemma LemonsLeft(amount: string, unit: string)
    requires amount == "1" && unit == "lemon"
    ensures MinusOne(amount, unit) == "no lemon"
  {
    assert amount[..0] == [];
    assert DigitsValue(amount) == 1;
  }

  lemma CabbagesLeft(amount: string, unit: string)
    requires amount == "2" && unit == "cabbages"
    ensures MinusOne(amount, unit) == "1 cabbage"
  {
    assert amount[..0] == [];
    assert DigitsValue(amount) == 2;
    assert unit[..|unit| - 1] == "cabbage";
  }

  lemma EggsLeft(amount: string, unit: string)
    requires amount == "101" && unit == "eggs"
    ensures MinusOne(amount, unit) == "100 eggs"
  {
    assert amount[..2] == [amount[0], amount[1]] && amount[..2][..1] == [amount[0]];
    assert [amount[0]][..0] == [];
    assert DigitsValue([amount[0]]) == 1;
    assert DigitsValue(amount[..2]) == 10;
    assert DigitsValue(amount) == 101;
    assert NatToString(100) == NatToString(10) + "0";
    assert NatToString(10) == "10";
  }

  /** The example: the stock string has each quantity decreased by one,
      and so does any text that starts with it and goes on after a
      character that is not a word character. */
  lemma StockExample(tail: string)
    requires tail == [] || !IsWord(tail[0])
    ensures Rewrite(Stock + tail) == "no lemon, 1 cabbage, and 100 eggs" + Rewrite(tail)
    ensures tail == [] ==> Rewrite(Stock + tail) == "no lemon, 1 cabbage, and 100 eggs"
  {
    var s := Stock + tail;
    assert StockPrefix(s);
    assert |s| == 33 || s[33] == tail[0];
    StockLemon(s, MinusOne);
    StockComma(s, MinusOne);
    StockCabbage(s, MinusOne);
    StockAnd(s, MinusOne);
    StockEggs(s, MinusOne);
    RewriteShift(s, Stock, tail, 0, MinusOne);
    LemonsLeft("1", "lemon");
    CabbagesLeft("2", "cabbages");
    EggsLeft("101", "eggs");
    StockPieces(RewriteFrom(tail, 0, MinusOne));
  }

  /** `s` starts with the stock string. */
  ghost predicate StockPrefix(s: string) {
    |Stock| <= |s| && forall p :: 0 <= p < |Stock| ==> s[p] == Stock[p]
  }

  /** Each quantity of the stock string is found where it stands and
      handed to the replacer. */
  lemma StockLemon(s: string, f: (string, string) --> string)
    requires StockPrefix(s) && Replacer(f)
    ensures RewriteFrom(s, 0, f) == f("1", "lemon") + RewriteFrom(s, 7, f)
  {
    LemonFound(s);
    RewriteMatch(s, 0, 1, 7, f);
  }

  lemma LemonFound(s: string)
    requires StockPrefix(s)
    ensures MatchAt(s, 0) == Some((1, 7)) && s[0..1] == "1" && s[2..7] == "lemon"
  {
    assert s[0] == Stock[0] && s[1] == Stock[1] && s[2] == Stock[2] && s[3] == Stock[3]
      && s[4] == Stock[4] && s[5] == Stock[5] && s[6] == Stock[6] && s[7] == Stock[7];
    assert s[0..1] == [s[0]];
    assert s[2..7] == [s[2], s[3], s[4], s[5], s[6]];
    forall p | 2 <= p < 7 ensures IsWord(s[p]) {
      assert p == 2 || p == 3 || p == 4 || p == 5 || p == 6;
    }
    MatchAtExact(s, 0, 1, 7);
  }

  lemma StockCabbage(s: string, f: (string, string) --> string)
    requires StockPrefix(s) && Replacer(f)
    ensures RewriteFrom(s, 9, f) == f("2", "cabbages") + RewriteFrom(s, 19, f)
  {
    CabbageFound(s);
    RewriteMatch(s, 9, 10, 19, f);
  }

  lemma CabbageFound(s: string)
    requires StockPrefix(s)
    ensures MatchAt(s, 9) == Some((10, 19)) && s[9..10] == "2" && s[11..19] == "cabbages"
  {
    assert s[9] == Stock[9] && s[10] == Stock[10] && s[11] == Stock[11] && s[12] == Stock[12]
      && s[13] == Stock[13] && s[14] == Stock[14] && s[15] == Stock[15] && s[16] == Stock[16]
      && s[17] == Stock[17] && s[18] == Stock[18] && s[19] == Stock[19];
    assert s[9..10] == [s[9]];
    assert s[11..19] == [s[11], s[12], s[13], s[14], s[15], s[16], s[17], s[18]];
    forall p | 11 <= p < 19 ensures IsWord(s[p]) {
      assert p == 11 || p == 12 || p == 13 || p == 14 || p == 15 || p == 16 || p == 17 || p == 18;
    }
    MatchAtExact(s, 9, 10, 19);
  }

  lemma StockEggs(s: string, f: (string, string) --> string)
    requires StockPrefix(s) && Replacer(f)
    requires |s| == 33 || !IsWord(s[33])
    ensures RewriteFrom(s, 25, f) == f("101", "eggs") + RewriteFrom(s, 33, f)
  {
    EggsFound(s);
    RewriteMatch(s, 25, 28, 33, f);
  }

  lemma EggsFound(s: string)
    requires StockPrefix(s)
    requires |s| == 33 || !IsWord(s[33])
    ensures MatchAt(s, 25) == Some((28, 33)) && s[25..28] == "101" && s[29..33] == "eggs"
  {
    assert s[25] == Stock[25] && s[26] == Stock[26] && s[27] == Stock[27] && s[28] == Stock[28]
      && s[29] == Stock[29] && s[30] == Stock[30] && s[31] == Stock[31] && s[32] == Stock[32];
    assert s[25..28] == [s[25], s[26], s[27]];
    assert s[29..33] == [s[29], s[30], s[31], s[32]];
    forall p | 25 <= p < 28 ensures IsDigit(s[p]) {
      assert p == 25 || p == 26 || p == 27;
    }
    forall p | 29 <= p < 33 ensures IsWord(s[p]) {
      assert p == 29 || p == 30 || p == 31 || p == 32;
    }
    MatchAtExact(s, 25, 28, 33);
  }

  /** The separators between the quantities are copied. */
  lemma StockComma(s: string, f: (string, string) --> string)
    requires StockPrefix(s) && Replacer(f)
    ensures RewriteFrom(s, 7, f) == ", " + RewriteFrom(s, 9, f)
  {
    assert s[7] == Stock[7] && s[8] == Stock[8];
    assert s[7..9] == [s[7], s[8]];
    forall p | 7 <= p < 9 ensures !IsDigit(s[p]) {
      assert p == 7 || p == 8;
    }
    RewriteCopiesRun(s, 7, 2, f);
  }

  lemma StockAnd(s: string, f: (string, string) --> string)
    requires StockPrefix(s) && Replacer(f)
    ensures RewriteFrom(s, 19, f) == ", and " + RewriteFrom(s, 25, f)
  {
    assert s[19] == Stock[19] && s[20] == Stock[20] && s[21] == Stock[21]
      && s[22] == Stock[22] && s[23] == Stock[23] && s[24] == Stock[24];
    assert s[19..25] == [s[19], s[20], s[21], s[22], s[23], s[24]];
    forall p | 19 <= p < 25 ensures !IsDigit(s[p]) {
      assert p == 19 || p == 20 || p == 21 || p == 22 || p == 23 || p == 24;
    }
    RewriteCopiesRun(s, 19, 6, f);
  }

  /** The rewritten pieces, put together. */
  lemma StockPieces(tail: string)
    ensures "no lemon" + (", " + ("1 cabbage" + (", and " + ("100 eggs" + tail))))
      == "no lemon, 1 cabbage, and 100 eggs" + tail
  {
  }

  // ---------------------------------------------------------------------
  // Replacing a character class: /[ou]/ and /[ou]/g

  /** `s.replace(/[class]/, [with])`: the first character in the class is
      replaced. */
  function ReplaceFirst(s: string, chars: set<char>, with: char): (r: string)
    ensures |r| == |s|
    decreases |s|
  {
    if s == [] then []
    else if s[0] in chars then [with] + s[1..]
    else [s[0]] + ReplaceFirst(s[1..], chars, with)
  }

  /** `s.replace(/[class]/g, [with])`: every character in the class is
      replaced. */
  function ReplaceAll(s: string, chars: set<char>, with: char): (r: string)
    ensures |r| == |s|
    decreases |s|
  {
    if s == [] then []
    else [if s[0] in chars then with else s[0]] + ReplaceAll(s[1..], chars, with)
  }

  /** The first replacement changes only the first character in the
      chars, and nothing when no character is in it. */
  lemma {:induction false} ReplaceFirstSpec(s: string, chars: set<char>, with: char, k: nat)
    requires k < |s| && s[k] in chars && forall i :: 0 <= i < k ==> s[i] !in chars
    ensures ReplaceFirst(s, chars, with) == s[k := with]
    decreases k
  {
    if k > 0 {
      ReplaceFirstSpec(s[1..], chars, with, k - 1);
      assert [s[0]] + s[1..][k - 1 := with] == s[k := with];
    }
  }

  lemma {:induction false} ReplaceFirstAbsent(s: string, chars: set<char>, with: char)
    requires forall i :: 0 <= i < |s| ==> s[i] !in chars
    ensures ReplaceFirst(s, chars, with) == s
    decreases |s|
  {
    if s != [] {
      ReplaceFirstAbsent(s[1..], chars, with);
    }
  }

  /** The global replacement changes exactly the characters in the class. */
  lemma {:induction false} ReplaceAllSpec(s: string, chars: set<char>, with: char)
    ensures forall i :: 0 <= i < |s| ==>
      ReplaceAll(s, chars, with)[i] == if s[i] in chars then with else s[i]
    decreases |s|
  {
    if s != [] {
      ReplaceAllSpec(s[1..], chars, with);
    }
  }

  /** Replacing everything in the class leaves no character of the class
      (unless the replacement is in it), and doing it twice is doing it once. */
  lemma ReplaceAllIdempotent(s: string, chars: set<char>, with: char)
    ensures with !in chars ==> forall i :: 0 <= i < |s| ==> ReplaceAll(s, chars, with)[i] !in chars
    ensures ReplaceAll(ReplaceAll(s, chars, with), chars, with) == ReplaceAll(s, chars, with)
  {
    ReplaceAllSpec(s, chars, with);
    ReplaceAllSpec(ReplaceAll(s, chars, with), chars, with);
  }

  /** The examples: "Borobudur" becomes "Barobudur" with the first [ou]
      replaced and "Barabadar" with all of them; "papa" becomes "mapa". */
  lemma ReplaceExamples()
    ensures ReplaceFirst("Borobudur", {'o', 'u'}, 'a') == "Barobudur"
    ensures ReplaceAll("Borobudur", {'o', 'u'}, 'a') == "Barabadar"
    ensures ReplaceFirst("papa", {'p'}, 'm') == "mapa"
  {
    BorobudurFirst("Borobudur");
    BorobudurAll("Borobudur");
    PapaFirst("papa");
  }

  lemma BorobudurFirst(s: string)
    requires s == "Borobudur"
    ensures ReplaceFirst(s, {'o', 'u'}, 'a') == "Barobudur"
  {
    ReplaceFirstSpec(s, {'o', 'u'}, 'a', 1);
    assert s[1 := 'a'] == "Barobudur";
  }

  lemma BorobudurAll(s: string)
    requires s == "Borobudur"
    ensures ReplaceAll(s, {'o', 'u'}, 'a') == "Barabadar"
  {
    ReplaceAllSpec(s, {'o', 'u'}, 'a');
    var r := ReplaceAll(s, {'o', 'u'}, 'a');
    assert r == [r[0], r[1], r[2], r[3], r[4], r[5], r[6], r[7], r[8]];
  }

  lemma PapaFirst(s: string)
    requires s == "papa"
    ensures ReplaceFirst(s, {'p'}, 'm') == "mapa"
  {
    ReplaceFirstSpec(s, {'p'}, 'm', 0);
  }
}
