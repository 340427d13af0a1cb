/** The script functions of chapter 5: `characterCount`, the script with the
    most characters, `characterScript`, `countBy` and `textScripts`. The
    `SCRIPTS` data set is a parameter, and only a script's name and code
    point ranges are modelled. */
module Scripts {
  import opened Base
  import opened HigherOrder

  /** A range `[from, to)` of code points: `from` is in it, `to` is not. */
  datatype Range = Range(from: int, to: int)

  datatype Script = Script(name: string, ranges: seq<Range>)

  // ---------------------------------------------------------------------
  // characterCount

  function Width(r: Range): int {
    r.to - r.from
  }

  /** The reducer `(count, [from, to]) => count + (to - from)`. */
  function AddWidth(count: int, r: Range): int {
    count + Width(r)
  }

  /** `characterCount(script)`: the ranges reduced from 0. */
  function CharacterCount(script: Script): int {
    FoldLeft(AddWidth, 0, script.ranges)
  }

  function Widths(ranges: seq<Range>): seq<int>
  {
    seq(|ranges|, i requires 0 <= i < |ranges| => Width(ranges[i]))
  }

  predicate WellFormed(script: Script) {
    forall i :: 0 <= i < |script.ranges| ==> script.ranges[i].from <= script.ranges[i].to
  }

  lemma {:induction false} FoldWidths(start: int, ranges: seq<Range>)
    ensures FoldLeft(AddWidth, start, ranges) == start + Sum(Widths(ranges))
    decreases |ranges|
  {
    if ranges != [] {
      var init := ranges[..|ranges| - 1];
      FoldWidths(start, init);
      assert Widths(ranges) == Widths(init) + [Width(ranges[|ranges| - 1])];
      SumAppend(Widths(init), [Width(ranges[|ranges| - 1])]);
    }
  }

  lemma {:induction false} SumNonNegative(s: seq<int>)
    requires forall i :: 0 <= i < |s| ==> s[i] >= 0
    ensures Sum(s) >= 0
    decreases |s|
  {
    if s != [] {
      SumNonNegative(s[1..]);
    }
  }

  /** The character count is the total width of the script's ranges, and
      is never negative when every range has `from <= to`. */
  lemma CharacterCountIsWidthSum(script: Script)
    ensures CharacterCount(script) == Sum(Widths(script.ranges))
    ensures WellFormed(script) ==> CharacterCount(script) >= 0
  {
    FoldWidths(0, script.ranges);
    if WellFormed(script) {
      SumNonNegative(Widths(script.ranges));
    }
  }

  // ---------------------------------------------------------------------
  // The script with the most characters

  /** The reducer `(a, b) => characterCount(a) < characterCount(b) ? b : a`. */
  function Larger(a: Script, b: Script): Script {
    if CharacterCount(a) < CharacterCount(b) then b else a
  }

  /** `SCRIPTS.reduce(Larger)`, with no start value. */
  function MostCharacters(scripts: seq<Script>): Option<Script> {
    ReduceFirst(scripts, Larger)
  }

  /** Where the first script with the largest character count sits. */
  function FirstMaxIndex(scripts: seq<Script>): (k: nat)
    requires scripts != []
    ensures k < |scripts|
    ensures forall i :: 0 <= i < |scripts| ==> CharacterCount(scripts[i]) <= CharacterCount(scripts[k])
    ensures forall i :: 0 <= i < k ==> CharacterCount(scripts[i]) < CharacterCount(scripts[k])
    decreases |scripts|
  {
    if |scripts| == 1 then 0
    else
      var init := scripts[..|scripts| - 1];
      var k := FirstMaxIndex(init);
      assert forall i :: 0 <= i < |init| ==> init[i] == scripts[i];
      if CharacterCount(scripts[k]) < CharacterCount(scripts[|scripts| - 1]) then |scripts| - 1 else k
  }

  /** Only one index is both a maximum and ahead of every other maximum. */
  lemma FirstMaxUnique(scripts: seq<Script>, k1: nat, k2: nat)
    requires k1 < |scripts| && k2 < |scripts|
    requires forall i :: 0 <= i < |scripts| ==> CharacterCount(scripts[i]) <= CharacterCount(scripts[k1])
    requires forall i :: 0 <= i < k1 ==> CharacterCount(scripts[i]) < CharacterCount(scripts[k1])
    requires forall i :: 0 <= i < |scripts| ==> CharacterCount(scripts[i]) <= CharacterCount(scripts[k2])
    requires forall i :: 0 <= i < k2 ==> CharacterCount(scripts[i]) < CharacterCount(scripts[k2])
    ensures k1 == k2
  {
    assert CharacterCount(scripts[k1]) == CharacterCount(scripts[k2]);
  }

  lemma {:induction false} FoldLargerFindsFirstMax(scripts: seq<Script>)
    requires scripts != []
    ensures FoldLeft(Larger, scripts[0], scripts[1..]) == scripts[FirstMaxIndex(scripts)]
    decreases |scripts|
  {
    if |scripts| == 1 {
      assert scripts[1..] == [];
    } else {
      var init := scripts[..|scripts| - 1];
      var last := scripts[|scripts| - 1];
      FoldLargerFindsFirstMax(init);
      var k := FirstMaxIndex(init);
      assert init[1..] == scripts[1..][..|scripts[1..]| - 1];
      assert init[k] == scripts[k];
    }
  }

  /** The reduce finds the script with the most characters; because the
      comparison is a strict `<`, a tie keeps the earlier script. On an
      empty list it throws. */
  lemma MostCharactersIsFirstMax(scripts: seq<Script>)
    ensures scripts == [] ==> MostCharacters(scripts) == None
    ensures scripts != [] ==> MostCharacters(scripts) == Some(scripts[FirstMaxIndex(scripts)])
  {
    if scripts != [] {
      FoldLargerFindsFirstMax(scripts);
    }
  }

  // ---------------------------------------------------------------------
  // characterScript

  predicate InRange(code: int, r: Range) {
    r.from <= code < r.to
  }

  /** `script.ranges.some(([from, to]) => code >= from && code < to)`. */
  predicate Covers(script: Script, code: int) {
    exists r :: r in script.ranges && InRange(code, r)
  }

  /** The first script with a range holding `code`, or `null`. */
  function ScriptFor(code: int, scripts: seq<Script>): (r: Option<Script>)
    ensures r.Some? ==> r.value in scripts && Covers(r.value, code)
    ensures r.None? <==> forall s :: s in scripts ==> !Covers(s, code)
    decreases |scripts|
  {
    if scripts == [] then None
    else if Covers(scripts[0], code) then Some(scripts[0])
    else ScriptFor(code, scripts[1..])
  }

  /** The answer is the first covering script: any earlier script covers
      nothing at `code`. */
  lemma {:induction false} ScriptForFirst(code: int, scripts: seq<Script>, k: nat)
    requires k < |scripts| && Covers(scripts[k], code)
    requires forall j :: 0 <= j < k ==> !Covers(scripts[j], code)
    ensures ScriptFor(code, scripts) == Some(scripts[k])
    decreases k
  {
    if k > 0 {
      ScriptForFirst(code, scripts[1..], k - 1);
    }
  }

  /** `characterScript(code)`: scans the scripts in order and returns the
      first whose ranges hold `code`. */
  method CharacterScript(code: int, scripts: seq<Script>) returns (r: Option<Script>)
    ensures r == ScriptFor(code, scripts)
  {
    for i := 0 to |scripts|
      invariant ScriptFor(code, scripts) == ScriptFor(code, scripts[i..])
    {
      assert scripts[i..][1..] == scripts[i + 1..];
      if Covers(scripts[i], code) {
        return Some(scripts[i]);
      }
    }
    return None;
  }

  // ---------------------------------------------------------------------
  // countBy

  /** An entry `{name, count}` of the array `countBy` builds. */
  datatype Count<N> = Count(name: N, count: nat)

  /** `counts.findIndex(c => c.name == name)`. */
  function NameIndex<N(==)>(counts: seq<Count<N>>, name: N): (k: int)
    ensures -1 <= k < |counts|
    ensures k >= 0 ==> counts[k].name == name && forall j :: 0 <= j < k ==> counts[j].name != name
    ensures k == -1 ==> forall j :: 0 <= j < |counts| ==> counts[j].name != name
    decreases |counts|
  {
    if counts == [] then -1
    else if counts[0].name == name then 0
    else
      var rest := NameIndex(counts[1..], name);
      if rest == -1 then -1 else 1 + rest
  }

  /** One step of `countBy`: push `{name, count: 1}` for a new name, or
      increment the count of the known one. */
  function Tally<N(==)>(counts: seq<Count<N>>, name: N): seq<Count<N>> {
    var known := NameIndex(counts, name);
    if known == -1 then counts + [Count(name, 1)]
    else counts[known := Count(name, counts[known].count + 1)]
  }

  /** The counts after tallying `names` in order. */
  function Counts<N(==)>(names: seq<N>): seq<Count<N>>
    decreases |names|
  {
    if names == [] then []
    else Tally(Counts(names[..|names| - 1]), names[|names| - 1])
  }

  function GroupNames<T, N>(items: seq<T>, groupName: T -> N): seq<N>
  {
    seq(|items|, i requires 0 <= i < |items| => groupName(items[i]))
  }

  /** `countBy(items, groupName)`. */
  method CountBy<T, N(==)>(items: seq<T>, groupName: T -> N) returns (counts: seq<Count<N>>)
    ensures counts == Counts(GroupNames(items, groupName))
  {
    counts := [];
    for i := 0 to |items|
      invariant counts == Counts(GroupNames(items[..i], groupName))
    {
      assert GroupNames(items[..i + 1], groupName)[..i] == GroupNames(items[..i], groupName);
      var name := groupName(items[i]);
      var known := NameIndex(counts, name);
      if known == -1 {
        counts := counts + [Count(name, 1)];
      } else {
        counts := counts[known := Count(name, counts[known].count + 1)];
      }
    }
    assert items[..|items|] == items;
  }

  function NamesOf<N>(counts: seq<Count<N>>): seq<N>
  {
    seq(|counts|, i requires 0 <= i < |counts| => counts[i].name)
  }

  /** How many of `names` are `x`. */
  function Occurrences<N(==)>(names: seq<N>, x: N): nat
    decreases |names|
  {
    if names == [] then 0
    else Occurrences(names[..|names| - 1], x) + if names[|names| - 1] == x then 1 else 0
  }

  lemma {:induction false} OccurrencesAbsent<N>(names: seq<N>, x: N)
    requires x !in names
    ensures Occurrences(names, x) == 0
    decreases |names|
  {
    if names != [] {
      assert names[..|names| - 1] <= names;
      OccurrencesAbsent(names[..|names| - 1], x);
    }
  }

  /** `x` occurs at most once per position, and at every position exactly
      when it occurs `|names|` times. */
  lemma {:induction false} OccurrencesAll<N>(names: seq<N>, x: N)
    ensures Occurrences(names, x) <= |names|
    ensures Occurrences(names, x) == |names| <==> forall i :: 0 <= i < |names| ==> names[i] == x
    decreases |names|
  {
    if names != [] {
      var init := names[..|names| - 1];
      OccurrencesAll(init, x);
      assert forall i :: 0 <= i < |init| ==> init[i] == names[i];
    }
  }

  /** The entries' names are the distinct names, in order of first
      appearance. */
  lemma {:induction false} CountsNames<N>(names: seq<N>)
    ensures NamesOf(Counts(names)) == Dedup(names)
    decreases |names|
  {
    if names != [] {
      var init := names[..|names| - 1];
      var x := names[|names| - 1];
      CountsNames(init);
      var c := Counts(init);
      var k := NameIndex(c, x);
      if k == -1 {
        assert x !in NamesOf(c);
        assert NamesOf(c + [Count(x, 1)]) == NamesOf(c) + [x];
      } else {
        assert NamesOf(c)[k] == x;
        assert NamesOf(c[k := Count(x, c[k].count + 1)]) == NamesOf(c);
      }
    }
  }

  /** Each entry counts exactly the items of its name, so no count is 0. */
  lemma {:induction false} CountsMeaning<N>(names: seq<N>)
    ensures forall j :: 0 <= j < |Counts(names)| ==>
      Counts(names)[j].count == Occurrences(names, Counts(names)[j].name) && Counts(names)[j].count >= 1
    decreases |names|
  {
    if names != [] {
      var init := names[..|names| - 1];
      var x := names[|names| - 1];
      CountsMeaning(init);
      CountsNames(init);
      var c := Counts(init);
      var k := NameIndex(c, x);
      if k == -1 {
        assert x !in NamesOf(c);
        DedupSameElements(init);
        OccurrencesAbsent(init, x);
      } else {
        DedupNoDup(init);
        assert forall j :: 0 <= j < |c| && j != k ==> c[j].name != x by {
          forall j | 0 <= j < |c| && j != k ensures c[j].name != x {
            assert NamesOf(c)[j] != NamesOf(c)[k];
          }
        }
      }
    }
  }

  /** The sum of the counts. */
  function SumCounts<N>(counts: seq<Count<N>>): nat
    decreases |counts|
  {
    if counts == [] then 0 else SumCounts(counts[..|counts| - 1]) + counts[|counts| - 1].count
  }

  /** `.filter(({name}) => name != x)`. */
  function Without<N(==)>(counts: seq<Count<N>>, x: N): seq<Count<N>>
    decreases |counts|
  {
    if counts == [] then []
    else
      var rest := Without(counts[..|counts| - 1], x);
      if counts[|counts| - 1].name != x then rest + [counts[|counts| - 1]] else rest
  }

  /** Raising one entry's count by one raises the sum by one, and the sum
      without `x` by one exactly when the entry is not named `x`. */
  lemma {:induction false} SumCountsBump<N>(counts: seq<Count<N>>, k: nat, x: N)
    requires k < |counts|
    ensures SumCounts(counts[k := Count(counts[k].name, counts[k].count + 1)]) == SumCounts(counts) + 1
    ensures SumCounts(Without(counts[k := Count(counts[k].name, counts[k].count + 1)], x))
      == SumCounts(Without(counts, x)) + if counts[k].name != x then 1 else 0
    decreases |counts|
  {
    var bumped := counts[k := Count(counts[k].name, counts[k].count + 1)];
    var init := counts[..|counts| - 1];
    if k < |counts| - 1 {
      SumCountsBump(init, k, x);
      assert bumped[..|bumped| - 1] == init[k := Count(init[k].name, init[k].count + 1)];
    } else {
      assert bumped[..|bumped| - 1] == init;
    }
  }

  lemma SumCountsTally<N>(counts: seq<Count<N>>, y: N, x: N)
    ensures SumCounts(Tally(counts, y)) == SumCounts(counts) + 1
    ensures SumCounts(Without(Tally(counts, y), x)) == SumCounts(Without(counts, x)) + if y != x then 1 else 0
  {
    var k := NameIndex(counts, y);
    if k == -1 {
      assert (counts + [Count(y, 1)])[..|counts|] == counts;
    } else {
      SumCountsBump(counts, k, x);
    }
  }

  /** The counts add up to the number of items, and those of names other
      than `x` to the number of items not named `x`. */
  lemma {:induction false} CountsTotal<N>(names: seq<N>, x: N)
    ensures SumCounts(Counts(names)) == |names|
    ensures SumCounts(Without(Counts(names), x)) == |names| - Occurrences(names, x)
    decreases |names|
  {
    if names != [] {
      CountsTotal(names[..|names| - 1], x);
      SumCountsTally(Counts(names[..|names| - 1]), names[|names| - 1], x);
    }
  }

  /** `countBy` with the names spelled out: entries with distinct names,
      in first-appearance order, each counting its items, at least one
      each, all adding up to the number of items. */
  lemma CountBySpec<T, N>(items: seq<T>, groupName: T -> N)
    ensures NamesOf(Counts(GroupNames(items, groupName))) == Dedup(GroupNames(items, groupName))
    ensures NoDup(NamesOf(Counts(GroupNames(items, groupName))))
    ensures forall j :: 0 <= j < |Counts(GroupNames(items, groupName))| ==>
      Counts(GroupNames(items, groupName))[j].count >= 1
    ensures forall j :: 0 <= j < |Counts(GroupNames(items, groupName))| ==>
      Counts(GroupNames(items, groupName))[j].count
        == Occurrences(GroupNames(items, groupName), Counts(GroupNames(items, groupName))[j].name)
    ensures SumCounts(Counts(GroupNames(items, groupName))) == |items|
  {
    var names := GroupNames(items, groupName);
    CountsNames(names);
    DedupNoDup(names);
    CountsMeaning(names);
    if names != [] {
      CountsTotal(names, names[0]);
    }
  }

  /** The example: `countBy([1, 2, 3, 4, 5], n => n > 2)` is
      `[{name: false, count: 2}, {name: true, count: 3}]`. */
  method CountByExample() returns (counts: seq<Count<bool>>)
    ensures counts == [Count(false, 2), Count(true, 3)]
  {
    var items := [1, 2, 3, 4, 5];
    counts := CountBy(items, GreaterThan(2));
    var names := GroupNames(items, GreaterThan(2));
    assert names == [false, false, true, true, true] by {
      forall i | 0 <= i < 5 ensures names[i] == (items[i] > 2) {
      }
    }
    CountsOfBoolExample(names);
  }

  lemma CountsOfBoolExample(names: seq<bool>)
    requires names == [false, false, true, true, true]
    ensures Counts(names) == [Count(false, 2), Count(true, 3)]
  {
    assert names[..1] == [false] && names[..2] == [false, false];
    assert names[..3] == [false, false, true] && names[..4] == [false, false, true, true];
    assert names[..2][..1] == names[..1] && names[..3][..2] == names[..2];
    assert names[..4][..3] == names[..3] && names[..4] == names[..|names| - 1];
    assert NameIndex([Count(false, 2)], true) == -1;
    assert NameIndex([Count(false, 2), Count(true, 1)], true) == 1;
    assert NameIndex([Count(false, 2), Count(true, 2)], true) == 1;
    assert Counts(names[..1]) == [Count(false, 1)];
    assert Counts(names[..2]) == [Count(false, 2)];
    assert Counts(names[..3]) == [Count(false, 2), Count(true, 1)];
    assert Counts(names[..4]) == [Count(false, 2), Count(true, 2)];
  }

  // ---------------------------------------------------------------------
  // textScripts

  /** The group name of a character: its script's name, or "none". */
  function GroupName(code: int, scripts: seq<Script>): string {
    match ScriptFor(code, scripts)
    case Some(script) => script.name
    case None => "none"
  }

  /** The reducer `(n, {count}) => n + count`. */
  function AddCount(n: int, c: Count<string>): int {
    n + c.count
  }

  lemma {:induction false} FoldAddCount(counts: seq<Count<string>>)
    ensures FoldLeft(AddCount, 0, counts) == SumCounts(counts)
    decreases |counts|
  {
    if counts != [] {
      FoldAddCount(counts[..|counts| - 1]);
    }
  }

  /** `Math.round(count * 100 / total)`: `Math.round` rounds halves up,
      so this is the floor of `count * 100 / total + 1/2`. */
  function Percent(count: int, total: int): int
    requires count >= 0 && total > 0
  {
    (200 * count + total) / (2 * total)
  }

  /** The percentage is the nearest whole number to `count * 100 / total`,
      a half rounding up, and is at most 100 when `count <= total`. */
  lemma PercentRounds(count: int, total: int)
    requires count >= 0 && total > 0
    ensures total * (2 * Percent(count, total) - 1) <= 200 * count < total * (2 * Percent(count, total) + 1)
    ensures 0 <= Percent(count, total)
    ensures count <= total ==> Percent(count, total) <= 100
  {
    var p := Percent(count, total);
    var r := (200 * count + total) % (2 * total);
    assert 200 * count + total == 2 * total * p + r && 0 <= r < 2 * total;
    assert total * (2 * p - 1) == 2 * total * p - total;
    assert total * (2 * p + 1) == 2 * total * p + total;
    if count <= total {
      assert 2 * total * p < 2 * total * 101;
      FactorCancels(2 * total, p, 101);
    }
  }

  lemma FactorCancels(a: int, b: int, c: int)
    requires a > 0 && a * b < a * c
    ensures b < c
  {
  }

  /** `v` is `count * 100 / total` rounded to the nearest integer, halves
      rounding up. */
  predicate RoundsTo(v: int, count: int, total: int) {
    total * (2 * v - 1) <= 200 * count < total * (2 * v + 1)
  }

  /** `${Math.round(count * 100 / total)}% ${name}`: a run of digits whose
      value is the percentage rounded to the nearest integer, then "% " and
      the name. */
  function Describe(c: Count<string>, total: int): (s: string)
    requires total > 0
    ensures |s| >= 1 && IsDigit(s[0])
    ensures var k := |s| - |c.name| - 2;
      1 <= k && (forall i :: 0 <= i < k ==> IsDigit(s[i])) && s[k..] == "% " + c.name
      && RoundsTo(DigitsValue(s[..k]), c.count, total)
  {
    var p := Percent(c.count, total);
    var digits := NatToString(p);
    PercentRounds(c.count, total);
    DigitsValueOfNatToString(p);
    DigitsThenText(digits, "% " + c.name);
    digits + ("% " + c.name)
  }

  /** A digit run followed by other text: the first `|digits|` characters
      are that run, and the rest is the text. */
  lemma DigitsThenText(digits: string, text: string)
    requires forall i :: 0 <= i < |digits| ==> IsDigit(digits[i])
    ensures var s := digits + text;
      (forall i :: 0 <= i < |digits| ==> IsDigit(s[i]))
      && s[..|digits|] == digits && s[|digits|..] == text
  {
    var s := digits + text;
    assert s[..|digits|] == digits;
  }

  /** `parts.join(separator)`. */
  function Join(parts: seq<string>, separator: string): (s: string)
    ensures |parts| >= 1 && |parts[0]| >= 1 ==> |s| >= 1 && s[0] == parts[0][0]
    decreases |parts|
  {
    if parts == [] then ""
    else if |parts| == 1 then parts[0]
    else parts[0] + separator + Join(parts[1..], separator)
  }

  const NoScriptsFound: string := "No scripts found"

  /** The group names `countBy` computes for the characters of `text`. */
  function TextNames(text: seq<int>, scripts: seq<Script>): seq<string>
  {
    GroupNames(text, c => GroupName(c, scripts))
  }

  /** `textScripts(text)` over the code points of `text`. */
  function TextScripts(text: seq<int>, scripts: seq<Script>): string {
    var named := Without(Counts(TextNames(text, scripts)), "none");
    var total := FoldLeft(AddCount, 0, named);
    FoldAddCount(named);
    if total == 0 then NoScriptsFound
    else Join(seq(|named|, i requires 0 <= i < |named| => Describe(named[i], total)), ", ")
  }

  /** The text has no recognised character exactly when the answer is
      "No scripts found"; otherwise the answer starts with a percentage. */
  lemma TextScriptsNoneFound(text: seq<int>, scripts: seq<Script>)
    ensures TextScripts(text, scripts) == NoScriptsFound <==>
      forall i :: 0 <= i < |text| ==> GroupName(text[i], scripts) == "none"
  {
    var names := TextNames(text, scripts);
    assert forall i :: 0 <= i < |text| ==> names[i] == GroupName(text[i], scripts);
    var named := Without(Counts(names), "none");
    CountsTotal(names, "none");
    FoldAddCount(named);
    OccurrencesAll(names, "none");
    var total := FoldLeft(AddCount, 0, named);
    if total != 0 {
      assert named != [];
      var parts := seq(|named|, i requires 0 <= i < |named| => Describe(named[i], total));
      assert TextScripts(text, scripts)[0] == parts[0][0];
      assert NoScriptsFound[0] == 'N';
    }
  }

  // ---------------------------------------------------------------------
  // Examples, over two scripts cut down to a few ranges

  const Latin := Script("Latin", [Range(65, 91), Range(97, 123)])
  const Cyrillic := Script("Cyrillic", [Range(1024, 1328)])

  /** `characterScript(121)` is Latin; 32 (a space) is in no script. */
  method CharacterScriptExample() returns (y: Option<Script>, space: Option<Script>)
    ensures y == Some(Latin) && space == None
  {
    assert InRange(121, Latin.ranges[1]);
    y := CharacterScript(121, [Cyrillic, Latin]);
    space := CharacterScript(32, [Cyrillic, Latin]);
  }

  const Example: seq<int> := [119, 111, 111, 102, 32, 1090, 1103, 1074]

  lemma ExampleNames()
    ensures TextNames(Example, [Latin, Cyrillic])
      == ["Latin", "Latin", "Latin", "Latin", "none", "Cyrillic", "Cyrillic", "Cyrillic"]
  {
    var scripts := [Latin, Cyrillic];
    var names := TextNames(Example, scripts);
    forall i | 0 <= i < 4 ensures names[i] == "Latin" {
      assert InRange(Example[i], Latin.ranges[1]);
    }
    assert forall r :: r in Latin.ranges ==> r == Range(65, 91) || r == Range(97, 123);
    assert forall r :: r in Cyrillic.ranges ==> r == Range(1024, 1328);
    assert names[4] == "none";
    forall i | 5 <= i < 8 ensures names[i] == "Cyrillic" {
      assert !Covers(Latin, Example[i]);
      assert InRange(Example[i], Cyrillic.ranges[0]);
      ScriptForFirst(Example[i], scripts, 1);
    }
  }

  lemma ExampleNamed()
    ensures Without(Counts(TextNames(Example, [Latin, Cyrillic])), "none")
      == [Count("Latin", 4), Count("Cyrillic", 3)]
  {
    ExampleNames();
    var c := Counts(TextNames(Example, [Latin, Cyrillic]));
    CountsOfExample(TextNames(Example, [Latin, Cyrillic]));
    assert c[..2][..1] == c[..1] && c[..|c| - 1] == c[..2];
    assert Without(c[..1], "none") == [Count("Latin", 4)];
    assert Without(c[..2], "none") == [Count("Latin", 4)];
  }

  lemma ExampleParts()
    ensures Describe(Count("Latin", 4), 7) == "57% Latin"
    ensures Describe(Count("Cyrillic", 3), 7) == "43% Cyrillic"
  {
    DescribeWith(Count("Latin", 4), 7, 57, "57");
    DescribeWith(Count("Cyrillic", 3), 7, 43, "43");
  }

  /** `Describe` once the percentage and its numeral are known. */
  lemma DescribeWith(c: Count<string>, total: int, p: nat, digits: string)
    requires total > 0 && Percent(c.count, total) == p && NatToString(p) == digits
    ensures Describe(c, total) == digits + "% " + c.name
  {
    assert digits + ("% " + c.name) == digits + "% " + c.name;
  }

  /** `textScripts` on the text "woof тяв" (not the longer mixed Han, Latin and
      Cyrillic sentence of the original example), over the two cut-down
      tables above: four Latin and three Cyrillic characters, and a space
      that is in no script. */
  lemma TextScriptsExample()
    ensures TextScripts(Example, [Latin, Cyrillic]) == "57% Latin, 43% Cyrillic"
  {
    var named := [Count("Latin", 4), Count("Cyrillic", 3)];
    ExampleNamed();
    FoldAddCount(named);
    assert SumCounts(named) == 7 by {
      assert named[..1] == [Count("Latin", 4)];
    }
    ExampleJoin(named);
    TextScriptsOfNamed(Example, [Latin, Cyrillic], named, 7);
  }

  /** `textScripts` once its named counts and their total are known. */
  lemma TextScriptsOfNamed(text: seq<int>, scripts: seq<Script>, named: seq<Count<string>>, total: int)
    requires Without(Counts(TextNames(text, scripts)), "none") == named
    requires FoldLeft(AddCount, 0, named) == total && total > 0
    ensures TextScripts(text, scripts)
      == Join(seq(|named|, i requires 0 <= i < |named| => Describe(named[i], total)), ", ")
  {
  }

  lemma ExampleJoin(named: seq<Count<string>>)
    requires named == [Count("Latin", 4), Count("Cyrillic", 3)]
    ensures Join(seq(|named|, i requires 0 <= i < |named| => Describe(named[i], 7)), ", ")
      == "57% Latin, 43% Cyrillic"
  {
    ExampleParts();
    var parts := seq(|named|, i requires 0 <= i < |named| => Describe(named[i], 7));
    assert parts == ["57% Latin", "43% Cyrillic"];
    assert Join(parts, ", ") == "57% Latin" + ", " + Join(parts[1..], ", ");
    assert parts[1..] == ["43% Cyrillic"];
  }

  /** A space and a digit belong to neither script. */
  lemma NoScriptsExample()
    ensures TextScripts([32, 48], [Latin, Cyrillic]) == NoScriptsFound
  {
    var text := [32, 48];
    assert forall r :: r in Latin.ranges ==> r == Range(65, 91) || r == Range(97, 123);
    assert forall r :: r in Cyrillic.ranges ==> r == Range(1024, 1328);
    assert GroupName(32, [Latin, Cyrillic]) == "none" && GroupName(48, [Latin, Cyrillic]) == "none";
    TextScriptsNoneFound(text, [Latin, Cyrillic]);
  }

  lemma CountsOfExample(names: seq<string>)
    requires names == ["Latin", "Latin", "Latin", "Latin", "none", "Cyrillic", "Cyrillic", "Cyrillic"]
    ensures Counts(names) == [Count("Latin", 4), Count("none", 1), Count("Cyrillic", 3)]
  {
    assert Counts(names[..1]) == [Count("Latin", 1)];
    assert names[..2][..1] == names[..1];
    assert Counts(names[..2]) == [Count("Latin", 2)];
    assert names[..3][..2] == names[..2];
    assert Counts(names[..3]) == [Count("Latin", 3)];
    assert names[..4][..3] == names[..3];
    assert Counts(names[..4]) == [Count("Latin", 4)];
    assert names[..5][..4] == names[..4];
    assert NameIndex([Count("Latin", 4)], "none") == -1;
    assert Counts(names[..5]) == [Count("Latin", 4), Count("none", 1)];
    assert names[..6][..5] == names[..5];
    assert NameIndex([Count("Latin", 4), Count("none", 1)], "Cyrillic") == -1;
    assert Counts(names[..6]) == [Count("Latin", 4), Count("none", 1), Count("Cyrillic", 1)];
    assert names[..7][..6] == names[..6];
    assert NameIndex([Count("Latin", 4), Count("none", 1), Count("Cyrillic", 1)], "Cyrillic") == 2;
    assert Counts(names[..7]) == [Count("Latin", 4), Count("none", 1), Count("Cyrillic", 2)];
    assert names[..7] == names[..|names| - 1];
    assert NameIndex([Count("Latin", 4), Count("none", 1), Count("Cyrillic", 2)], "Cyrillic") == 2;
  }
}
