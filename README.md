# Eloquent JavaScript exercises, modelled in Dafny

This project models the worked examples and exercises of six chapters of an
Eloquent JavaScript study repository and proves what they compute:

- the squirrel journal of chapter 4 (`tableFor`, `journalEvents`, the
  "peanut teeth" pass and both `phi` definitions) and its `deepEqual`;
- the higher-order functions of chapter 5 (`greaterThan`, `repeat`,
  `unless`, `reduce`, flattening with `reduce`, both `loop` definitions)
  and its Unicode-script analysis (`characterCount`, the script with the
  most characters, `characterScript`, `countBy`, `textScripts`);
- the classes of chapter 6: `Matrix` with `MatrixIterator`, `Vec`, the two
  `Group` classes and `GroupIterator`;
- the string replacements of chapter 9 (`minusOne` driven by
  `/(\d+) (\w+)/g`, and first and global replacement of a character class);
- `talksAbout` of chapter 14, a search over a document tree;
- `reverse` of chapter 20.

Each module follows one source concern. `Base` holds the shared
definitions: an option type, first-appearance de-duplication (which is what
`includes`-guarded pushes compute), removal, sums and decimal numerals.
Code that changes state step by step is modelled imperatively. The classes
`Matrix`, `MatrixIterator`, `Group`, `IterableGroup` and `GroupIterator`
have fields and `modifies` clauses. The loops of `tableFor`,
`journalEvents`, `repeat`, `reduce`, `characterScript`, `countBy` and
iterative `loop` are methods with invariants. Each method is proved against
a specification function, and the properties of those functions are proved
as lemmas. Pure code becomes functions and lemmas.

JavaScript numbers are modelled as unbounded integers. Strings are
sequences of code points. A callback becomes a Dafny function value. A
callback that prints becomes one that returns what it would print.

Where the code and its description differ, the model follows the code:

- The first `phi` (chapter_4.js:20-42) has its numerator commented out
  and returns only the square root. The model keeps that function's
  radicand as written and relates it to the second `phi`.
- `GroupIterator.next` (chapter_6.js:487-492) stops at the first
  `undefined` member, not only at the end of the members.

The assignment of `Matrix.prototype[Symbol.iterator]` and the 2×2 example
(chapter_6.js:353-378) sit inside the braces of `class MatrixIterator`,
where a class body cannot hold statements. The model reads them as the
top-level code that follows the class.

## Model

| member | source | states |
|---|---|---|
| Journal.Table | chapter_4.js:49-79 | the reference table, cell k counting the entries in cell k; TableFor, TableSum and TableOrderIndependent are stated against it |
| Journal.CellIndexMeaning | chapter_4.js:61-71 | the cell index is 0, 1, 2 or 3 exactly for neither, event only, squirrel only, both |
| Journal.TableFor | chapter_4.js:49-79 | the loop returns the table whose cell k counts the entries falling in cell k |
| Journal.EmptyJournalTable | chapter_4.js:51 | an empty journal gives [0, 0, 0, 0] |
| Journal.TableSum | chapter_4.js:55-77 | the four cells add up to the number of entries: each entry is counted once |
| Journal.TableOrderIndependent | chapter_4.js:55-77 | journals that are permutations of each other give the same table |
| Journal.JournalEvents | chapter_4.js:84-94 | the nested loops return the duplicate-free list of all events in first-appearance order |
| Journal.JournalEventsSpec | chapter_4.js:84-94 | that list has no duplicates, holds exactly the events of some entry, and keeps first-appearance order |
| Journal.TagPeanutTeeth | chapter_4.js:106-113 | every entry becomes its tagged version and nothing else changes |
| Journal.Tagged | chapter_4.js:107-111 | one entry after the peanut pass; TaggedSpec states when it changes |
| Journal.TaggedSpec | chapter_4.js:107-111 | an entry with peanuts and without brushed teeth gains "peanut teeth" at the end; any other entry is unchanged |
| Journal.TaggedEventMeaning | chapter_4.js:106-114 | after the pass, "peanut teeth" is present exactly on the tagged entries, which fixes that event's table cell |
| Journal.PhiNumerator | chapter_4.js:117-121 | n11 * n00 - n10 * n01; PhiBounded bounds it by the radicand |
| Journal.PhiRadicand | chapter_4.js:117-121 | the product of the four margins under the square root; PhiBounded states its sign and zeros |
| Journal.FirstPhiRadicand | chapter_4.js:20-42 | the product under the first phi's square root; PhiRadicandsAgree equates it with PhiRadicand |
| Journal.PhiRadicandsAgree | chapter_4.js:31-40 | the product under the first `phi`'s square root equals the radicand of the second `phi` |
| Journal.PhiBounded | chapter_4.js:117-121 | on counts, the radicand is non-negative, is zero exactly when a margin is empty, and bounds the squared numerator, so phi lies in [-1, 1] |
| Journal.PerfectCorrelationExample | chapter_4.js:114-121 | one event-and-squirrel entry and one empty entry give the table [1, 0, 0, 1], numerator 1 and radicand 1 (phi = 1) |
| DeepEquality.DeepEqual | chapter_4.js:148-164 | the recursive comparison; its lemmas below show it identical-true, `===`-false for non-objects, key-by-key for objects, symmetric |
| DeepEquality.KeysMatchFromMeaning | chapter_4.js:159-163 | the key loop succeeds exactly when every remaining key of a is in b with deep-equal values |
| DeepEquality.DeepEqualIdentical | chapter_4.js:149 | every value is deep-equal to itself |
| DeepEquality.DeepEqualNonObjects | chapter_4.js:149-152 | unless both are non-null objects, values that are not `===` are not deep-equal |
| DeepEquality.DeepEqualObjects | chapter_4.js:154-163 | distinct objects are deep-equal exactly when they have as many keys and each key of a is in b with deep-equal values |
| DeepEquality.DeepEqualSymmetric | chapter_4.js:148-164 | on values with distinct keys, deepEqual(a, b) == deepEqual(b, a) |
| DeepEquality.IdentityShortcutSound | chapter_4.js:149 | the `===` shortcut never changes the answer: key-by-key comparison of an object with itself succeeds |
| DeepEquality.DeepEqualExamples | chapter_4.js:148-164 | key order does not matter, a missing key does, `null` is not `{}`, and 5 is not "5" |
| HigherOrder.GreaterThan | chapter_5.js:10-12 | the closure m => m > n; GreaterThanExamples states its answers |
| HigherOrder.GreaterThanExamples | chapter_5.js:10-18 | greaterThan(10)(11) and greaterThan(1)(2) are true, while 2 is not greater than 10: each closure keeps its own n |
| HigherOrder.Repeat | chapter_5.js:90-94 | the action is called with 0, 1, …, n-1 in order (never when n <= 0), and the reports are those of the reference definition |
| HigherOrder.Unless | chapter_5.js:96-99 | runs the action only when the test fails; EvenReports and EvenExample state what this gives inside repeat |
| HigherOrder.EvenReports | chapter_5.js:96-105 | repeat with unless(odd) reports each even number below n exactly once, in increasing order |
| HigherOrder.EvenExample | chapter_5.js:101-107 | repeat(3, …) reports 0 and 2 |
| HigherOrder.FoldLeft | chapter_5.js:126-132 | the reference left fold that Reduce, FoldLeftAppend and FoldAddIsSum are stated against |
| HigherOrder.Reduce | chapter_5.js:126-132 | the loop computes the left fold of combine from start |
| HigherOrder.FoldLeftAppend | chapter_5.js:126-132 | folding a concatenation folds the second part from the first part's result |
| HigherOrder.FoldAddIsSum | chapter_5.js:134 | reduce with addition is start plus the sum of the elements |
| HigherOrder.ReduceExample | chapter_5.js:134-135 | reduce([1, 2, 3, 4], +, 0) is 10 |
| HigherOrder.ReduceFirst | chapter_5.js:325-331 | reduce without a start value has no result exactly for an empty array |
| HigherOrder.FlattenElements | chapter_5.js:325-331 | an element is in the flattening exactly when it is in one of the arrays |
| HigherOrder.FlattenByReduce | chapter_5.js:325-331 | reducing with concat is the flattening of the arrays, in order |
| HigherOrder.FlattenExample | chapter_5.js:325-331 | [[1, 2, 3], [4, 5], [6]] flattens to [1, 2, 3, 4, 5, 6] |
| HigherOrder.LoopRec | chapter_5.js:334-340 | the recursive `loop`, defined whenever some value update(…(update(value))) fails the test; LoopVisits and LoopTraceUnique state what it visits |
| HigherOrder.LoopVisits | chapter_5.js:334-340 | body receives value, update(value), update(update(value)), … while test holds, and test fails on the next value |
| HigherOrder.LoopTraceUnique | chapter_5.js:334-340 | any sequence of visits with that shape is the recursive loop's, whatever bound is used |
| HigherOrder.LoopIter | chapter_5.js:334-346 | when some value reached fails the test, the iterative `loop` ends and calls body on the values of that trace, the same as the recursive `loop` |
| HigherOrder.CountdownExample | chapter_5.js:342-346 | loop(5, n != 0, n - 1, …) calls body with 5, 4, 3, 2, 1 |
| Scripts.CharacterCount | chapter_5.js:145-149 | the reduce over the ranges that CharacterCountIsWidthSum states as a sum of widths |
| Scripts.CharacterCountIsWidthSum | chapter_5.js:145-149 | characterCount is the sum of to - from over the ranges, non-negative for well-formed ranges |
| Scripts.FirstMaxIndex | chapter_5.js:177-182 | picks a script with the largest character count, the first one among ties |
| Scripts.FirstMaxUnique | chapter_5.js:177-182 | only one index is a maximum ahead of every other maximum, so the contract of FirstMaxIndex fixes its answer |
| Scripts.FoldLargerFindsFirstMax | chapter_5.js:178-181 | reducing with "b if a has fewer characters, else a" ends at the first script of largest count |
| Scripts.MostCharacters | chapter_5.js:177-182 | `SCRIPTS.reduce` with the larger-count combiner; MostCharactersIsFirstMax states its result |
| Scripts.MostCharactersIsFirstMax | chapter_5.js:177-182 | reduce without a start value gives that script, or nothing for no scripts |
| Scripts.ScriptFor | chapter_5.js:222-233 | a found script is one of the scripts and covers the code; nothing is found exactly when no script covers it |
| Scripts.ScriptForFirst | chapter_5.js:223-230 | the first covering script is the one returned |
| Scripts.CharacterScript | chapter_5.js:222-233 | the loop with early return computes that search |
| Scripts.CharacterScriptExample | chapter_5.js:235 | code 121 is Latin; a space is in no script |
| Scripts.NameIndex | chapter_5.js:285 | findIndex gives the first count with that name, or -1 when there is none |
| Scripts.CountBy | chapter_5.js:281-293 | the loop returns the counts of the reference tally of the group names |
| Scripts.CountsNames | chapter_5.js:284-290 | the names of the counts are the distinct group names in first-appearance order |
| Scripts.CountsMeaning | chapter_5.js:284-290 | each count is the number of items with that name, and at least 1 |
| Scripts.CountsTotal | chapter_5.js:281-293 | the counts add up to the number of items; without one name, to the items not carrying it |
| Scripts.CountBySpec | chapter_5.js:281-293 | countBy's names are distinct and in first-appearance order, its counts are occurrence counts, and they add up to the number of items |
| Scripts.CountByExample | chapter_5.js:295-296 | countBy([1, 2, 3, 4, 5], n > 2) is [{false, 2}, {true, 3}] |
| Scripts.FoldAddCount | chapter_5.js:304 | the total computed by reduce is the sum of the counts |
| Scripts.Percent | chapter_5.js:309 | Math.round(count * 100 / total) on integers; PercentRounds states its rounding bounds |
| Scripts.PercentRounds | chapter_5.js:309 | Math.round of count*100/total: within half a unit of the exact ratio, between 0 and 100 |
| Scripts.Describe | chapter_5.js:308-310 | a part is a non-empty digit run whose value is count*100/total rounded to the nearest integer, followed by "% " and the name |
| Scripts.TextScripts | chapter_5.js:298-312 | names, counts, total and parts of textScripts; TextScriptsNoneFound and the examples state its results |
| Scripts.TextScriptsNoneFound | chapter_5.js:298-305 | "No scripts found" exactly when every character's group name is "none": it is in no script, or its script is itself named "none" |
| Scripts.TextScriptsExample | chapter_5.js:298-315 | "woof тяв" gives "57% Latin, 43% Cyrillic" |
| Scripts.NoScriptsExample | chapter_5.js:304-305 | a text with no script characters gives "No scripts found" |
| Matrices.IndexInjective | chapter_6.js:312 | distinct cells of a row occupy distinct slots y * width + x |
| Matrices.IndexCoordinates | chapter_6.js:317-319 | slot y * width + x gives back y and x by division and remainder |
| Matrices.Matrix.constructor | chapter_6.js:305-315 | content holds element(x, y) at slot y * width + x for every cell of the grid |
| Matrices.Matrix.Get | chapter_6.js:317-319 | reads slot y * width + x; SetThenGet and the constructor's contract state what it returns |
| Matrices.Matrix.Set | chapter_6.js:320-322 | writes exactly that slot, after which get reads the new value |
| Matrices.SetThenGet | chapter_6.js:317-322 | after set, every other cell reads as before |
| Matrices.MatrixIterator.Next | chapter_6.js:339-351 | done exactly at y == height; otherwise yields {x, y, get(x, y)} and advances x, wrapping to the next row |
| Matrices.RowMajorVisitsEachCellOnce | chapter_6.js:339-351 | row-major order visits each cell exactly once, at position y * width + x |
| Matrices.CellsOf | chapter_6.js:360-373 | for…of over a matrix yields its cells in row-major order |
| Matrices.TwoByTwoExample | chapter_6.js:370-377 | the 2×2 example yields (0,0), (1,0), (0,1), (1,1) with their labels |
| Vectors.Plus | chapter_6.js:384-386 | a new vector from the sums of the coordinates; PlusMinusComponentwise and PlusMinusAlgebra state its properties |
| Vectors.Minus | chapter_6.js:387-389 | a new vector from the differences of the coordinates; the same lemmas state its properties |
| Vectors.PlusMinusComponentwise | chapter_6.js:381-399 | plus and minus, through the constructor that stores x and y, work coordinate by coordinate; (1,2)+(2,3) = (3,5) and (1,2)-(2,3) = (-1,-1) |
| Vectors.PlusMinusAlgebra | chapter_6.js:384-389 | minus undoes plus; plus is commutative and associative with identity (0, 0) |
| Groups.Group.Add | chapter_6.js:409-413 | appends the value only when it is not a member, keeping members duplicate-free |
| Groups.Group.Delete | chapter_6.js:415-417 | keeps every other member in order and removes the value |
| Groups.Group.Has | chapter_6.js:419-421 | `includes` on the members; GroupExample and AddPresentUnchanged state its answers |
| Groups.Group.From | chapter_6.js:423-429 | the group holds the distinct values of the collection in first-appearance order |
| Groups.AddPresentUnchanged | chapter_6.js:410 | adding a member again changes nothing |
| Groups.FromSpec | chapter_6.js:423-429 | Group.from holds exactly the collection's values, each once, ordered by first occurrence |
| Groups.GroupExample | chapter_6.js:432-439 | from([10, 20]) has 10 and not 30, and no longer has 10 after add(10) and delete(10) |
| Groups.HasVersionsAgree | chapter_6.js:459-463 | the second `has` agrees with the first (lines 419-421): indexOf(v) >= 0 exactly when includes(v) |
| Groups.IterableGroup.Add | chapter_6.js:449-453 | appends only a non-member, keeping members duplicate-free |
| Groups.IterableGroup.Delete | chapter_6.js:455-457 | removes the value and keeps the other members in order |
| Groups.IterableGroup.From | chapter_6.js:469-476 | the group holds the distinct values in first-appearance order |
| Groups.IterableGroup.Has | chapter_6.js:459-463 | indexOf(val) >= 0 on the members; HasVersionsAgree relates it to the first `has` |
| Groups.IterableGroup.Iterator | chapter_6.js:465-467 | a fresh iterator at position 0 over this group |
| Groups.GroupIterator.Next | chapter_6.js:487-492 | done at the end or at an `undefined` member, without moving; otherwise yields the member and moves on |
| Groups.ValuesOf | chapter_6.js:498-500 | for…of yields the members in order, up to the first `undefined` one |
| Groups.IterationExample | chapter_6.js:498-505 | iterating from(["a", "b", "c"]) yields a, b, c |
| Quantities.MinusOne | chapter_9.js:280-288 | the replacer; MinusOneDecrements and MinusOneReadsBack state what it writes |
| Quantities.MinusOneDecrements | chapter_9.js:280-288 | for n >= 3 writes n - 1 and the unit; for 2, "1" and the unit without its last letter; for 1, "no" and the unit |
| Quantities.MinusOneReadsBack | chapter_9.js:281-287 | the amount written back reads as one less than the matched digits |
| Quantities.DigitRunSpec | chapter_9.js:289 | `\d+` takes every digit from the position on and stops before a character that is not a digit |
| Quantities.WordRunSpec | chapter_9.js:289 | `\w+` takes every word character from the position on and stops before one that is not |
| Quantities.MatchAtSpec | chapter_9.js:289 | a match the scanner finds is digits, a space and word characters that cannot be extended; when it finds none, no match starts there |
| Quantities.MatchAtLongest | chapter_9.js:289 | any match at the position has the found match's space and ends no later |
| Quantities.RewriteFrom | chapter_9.js:289 | the global replace of `(\d+) (\w+)` from a position with a given replacer; the Rewrite lemmas state what it does |
| Quantities.Rewrite | chapter_9.js:289 | that replace from the start with minusOne; StockExample states its result on the stock string |
| Quantities.RewriteWithoutDigits | chapter_9.js:289 | replace leaves a string without digits unchanged, whatever the replacer |
| Quantities.RewriteCopiesRun | chapter_9.js:289 | a run of characters that are not digits is copied as it is |
| Quantities.RewriteMatch | chapter_9.js:289 | the global replace hands the found match's two groups to the replacer and resumes after the match |
| Quantities.RewriteShift | chapter_9.js:289 | scanning looks only forward: rewriting the text after a prefix gives what rewriting that text alone gives |
| Quantities.StockExample | chapter_9.js:279-290 | the stock string becomes "no lemon, 1 cabbage, and 100 eggs", and text after it that starts with a non-word character is rewritten on its own |
| Quantities.ReplaceFirst | chapter_9.js:243-244 | replace of a one-character class without g; ReplaceFirstSpec and ReplaceFirstAbsent state its result |
| Quantities.ReplaceAll | chapter_9.js:245-246 | the same with g; ReplaceAllSpec and ReplaceAllIdempotent state its result |
| Quantities.ReplaceFirstSpec | chapter_9.js:243-244 | replace without g changes exactly the first character of the class |
| Quantities.ReplaceFirstAbsent | chapter_9.js:240-244 | with no character of the class, nothing changes |
| Quantities.ReplaceAllSpec | chapter_9.js:245-246 | replace with g changes every character of the class and only those |
| Quantities.ReplaceAllIdempotent | chapter_9.js:245-246 | when the replacement is outside the class, no class character is left and a second pass changes nothing |
| Quantities.ReplaceExamples | chapter_9.js:240-246 | "papa" gives "mapa"; "Borobudur" gives "Barobudur" and, globally, "Barabadar" |
| DomSearch.IndexOf | chapter_14.js:40 | indexOf is -1 or the first position where the string occurs |
| DomSearch.IndexOfContains | chapter_14.js:40 | indexOf > -1 exactly when the string is a substring; the empty string is found at 0 |
| DomSearch.TalksAbout | chapter_14.js:31-42 | answers `undefined` exactly for a node that is neither element nor text |
| DomSearch.SearchChildren | chapter_14.js:33-38 | the children loop answers true exactly when some remaining child answers true |
| DomSearch.TalksAboutTexts | chapter_14.js:31-42 | talksAbout is true exactly when some text node below the node contains the string |
| DomSearch.ElementAnswers | chapter_14.js:32-38 | an element without children answers false; an element answers true exactly when a child does |
| DomSearch.BodyTalksAboutBook | chapter_14.js:44-45 | a body whose paragraph says "a book" talks about "book" |
| Reverse.ArrayReverse | chapter_20.js:35 | element i of the result is element n-1-i of the input |
| Reverse.JoinCodePoints | chapter_20.js:36 | joining single code points with "" gives back the code points |
| Reverse.ArrayFromJoin | chapter_20.js:34-36 | Array.from splits a string into single code points, and joining them with "" gives the string back |
| Reverse.ReverseString | chapter_20.js:33-37 | reverse; ReverseSpec, ReverseInvolution and ReverseExamples state its result |
| Reverse.ReverseSpec | chapter_20.js:33-37 | the result has as many code points as the input, code point i being the input's n-1-i |
| Reverse.ReverseInvolution | chapter_20.js:33-37 | reversing twice gives the input back |
| Reverse.ReverseExamples | chapter_20.js:33-37 | "" reverses to "" and "abc" to "cba" |

## Left out

- The journal data set and the script data set are parameters. A script
  has only its name and ranges; direction, year, living and link are not
  modelled.
- Vectors.Plus: coordinates are unbounded integers, so a vector with
  non-integer coordinates cannot be represented.
- Vectors.Minus: the same, for the same reason.
- Floating point: the square root and division of `phi`, `Vec.length`,
  `average`, `normalize`, and the correlation threshold filter.
  `phi` is modelled by its integer numerator and radicand.
- Scripts.PercentRounds: models `Math.round` of the exact ratio, not of
  the floating-point quotient `count * 100 / total`.
- Console output. `noisy`, `nestedFunction`, `printToConsole` and `printy`
  are demonstrations of call chaining, and their only effect is printing.
- The objects and prototypes demonstrations of chapter 6 (`Rabbit`,
  `protoRabbit`, `Symbol`, `toString`, `Map`, `hasOwnProperty`) are not
  part of the core.
- JavaScript coercions: `==` between mixed types, `NaN`, `-0`, and the
  SameValueZero equality of `includes` are not modelled. Values are
  compared with Dafny equality, and `===` on objects is approximated by
  structural equality, justified by DeepEquality.IdentityShortcutSound.
- Regular expressions in general: only the scanners for `(\d+) (\w+)`
  and for a one-character class are modelled. The `$2 $1` swap of names
  and the upper-casing of "cia" and "fbi" are not modelled.
- Quantities.MinusOne: requires an all-digit amount, because the regular
  expression only passes digit runs; `Number` of other strings is not
  modelled. The amount is an unbounded integer, so the loss of precision
  above 2^53 and the exponent notation of very large amounts are not
  modelled.
- `replaceImages` and every other DOM mutation, and the HTML fragments.
  The DOM is an abstract tree, with no parent links and no live node
  lists.
- Node I/O of chapter 20: `process.argv`, `readFile` and `writeFile`,
  promises, and the HTTP server and client. chapter_13.js is prose and
  is not part of this model.
- HigherOrder.LoopIter: requires that some value update(…(update(value)))
  fails the test. With no such value the source's `loop` runs forever,
  and a loop that never stops is not modelled.
- HigherOrder.LoopRec: takes a ghost bound at which the test fails, for
  the same reason; HigherOrder.LoopVisits and LoopTraceUnique take it too.
- Matrices.MatrixIterator.Next: requires width > 0 whenever height > 0.
  With width 0 and a height above 0, the source's iterator never reaches
  `done`.
- Matrices.CellsOf: requires width > 0 whenever height > 0, for the same
  reason.
- Matrices.Matrix.Set: requires the slot to lie inside the content.
  JavaScript would grow the array, or add a property for a negative
  index, and the model's content is a fixed-size array.
- Scripts.CountBy: `counts[known].count++` mutates a shared object in
  place; the model replaces that element of a sequence instead.
- Groups.Group: `filter` allocates a new array, while the model assigns a
  new sequence. Aliasing of the old members array is not modelled.
- Matrices.Matrix.constructor: requires `element`. The source's default
  `element = (x, y) => undefined` (chapter_6.js:305) is not modelled; a
  caller passes a function that returns the default value.
- DeepEquality.DeepEqual: a JsValue is a finite tree. Cyclic or shared
  sub-objects cannot be represented, so the source's unbounded recursion
  on a self-referential object is not modelled.
- Journal.TagPeanutTeeth: entries are values. In the source the same
  entry object appearing twice in the journal is tagged twice
  (chapter_4.js:106-113); the model tags each position once.
