/** The squirrel journal of chapter 4: the 2x2 frequency table of one event
    against the squirrel flag, the list of all events, the "peanut teeth"
    tagging pass, and the integer parts of the phi coefficient. */
module Journal {
  import opened Base

  /** One journal entry: the events of a day and whether Jacques turned
      into a squirrel that evening. */
  datatype Entry = Entry(events: seq<string>, squirrel: bool)

  /** The table cell an entry falls into: 1 for the event, plus 2 for the
      squirrel. */
  function CellIndex(event: string, entry: Entry): (k: nat)
    ensures k < 4
  {
    (if event in entry.events then 1 else 0) + (if entry.squirrel then 2 else 0)
  }

  /** The number of entries of `journal` that fall into cell `k`. */
  function CountIn(event: string, journal: seq<Entry>, k: nat): nat
    decreases |journal|
  {
    if journal == [] then 0
    else
      CountIn(event, journal[..|journal| - 1], k)
        + (if CellIndex(event, journal[|journal| - 1]) == k then 1 else 0)
  }

  /** The frequency table of `event`: cell k counts the entries whose index is k. */
  function Table(event: string, journal: seq<Entry>): seq<nat> {
    [CountIn(event, journal, 0), CountIn(event, journal, 1),
     CountIn(event, journal, 2), CountIn(event, journal, 3)]
  }

  /** `tableFor`: one pass over the journal, adding one to the cell of each
      entry. The journal is a value parameter, so it is only read. */
  method TableFor(event: string, journal: seq<Entry>) returns (table: seq<nat>)
    ensures table == Table(event, journal)
  {
    var cells := new nat[4];
    cells[0], cells[1], cells[2], cells[3] := 0, 0, 0, 0;
    for i := 0 to |journal|
      invariant cells[..] == Table(event, journal[..i])
    {
      var entry := journal[i];
      var index := 0;
      if event in entry.events {
        index := index + 1;
      }
      if entry.squirrel {
        index := index + 2;
      }
      assert journal[..i + 1][..i] == journal[..i];
      cells[index] := cells[index] + 1;
    }
    assert journal[..|journal|] == journal;
    table := cells[..];
  }

  /** An empty journal gives the table [0, 0, 0, 0]. */
  lemma EmptyJournalTable(event: string)
    ensures Table(event, []) == [0, 0, 0, 0]
  {
  }

  /** Cell index 1 means the event only, 2 the squirrel only, 3 both. */
  lemma CellIndexMeaning(event: string, entry: Entry)
    ensures CellIndex(event, entry) == 0 <==> event !in entry.events && !entry.squirrel
    ensures CellIndex(event, entry) == 1 <==> event in entry.events && !entry.squirrel
    ensures CellIndex(event, entry) == 2 <==> event !in entry.events && entry.squirrel
    ensures CellIndex(event, entry) == 3 <==> event in entry.events && entry.squirrel
  {
  }

  /** Every entry is counted exactly once: the four cells add up to the
      number of entries. */
  lemma {:induction false} TableSum(event: string, journal: seq<Entry>)
    ensures Sum(Table(event, journal)) == |journal|
  {
    var t := Table(event, journal);
    SumOfFour(t[0], t[1], t[2], t[3]);
    CountTotal(event, journal);
  }

  lemma SumOfFour(a: int, b: int, c: int, d: int)
    ensures Sum([a, b, c, d]) == a + b + c + d
  {
    assert [d][1..] == [];
    assert Sum([d]) == d;
    assert [c, d][1..] == [d];
    assert Sum([c, d]) == c + d;
    assert [b, c, d][1..] == [c, d];
    assert Sum([b, c, d]) == b + c + d;
    assert [a, b, c, d][1..] == [b, c, d];
  }

  lemma {:induction false} CountTotal(event: string, journal: seq<Entry>)
    ensures CountIn(event, journal, 0) + CountIn(event, journal, 1)
          + CountIn(event, journal, 2) + CountIn(event, journal, 3) == |journal|
    decreases |journal|
  {
    if journal != [] {
      CountTotal(event, journal[..|journal| - 1]);
    }
  }

  lemma {:induction false} CountAppend(event: string, a: seq<Entry>, b: seq<Entry>, k: nat)
    ensures CountIn(event, a + b, k) == CountIn(event, a, k) + CountIn(event, b, k)
    decreases |b|
  {
    if b == [] {
      assert a + b == a;
    } else {
      var b' := b[..|b| - 1];
      assert (a + b)[..|a + b| - 1] == a + b';
      CountAppend(event, a, b', k);
    }
  }

  /** The counts do not depend on the order of the entries: any
      rearrangement of the journal gives the same table. */
  lemma {:induction false} TableOrderIndependent(event: string, j1: seq<Entry>, j2: seq<Entry>)
    requires multiset(j1) == multiset(j2)
    ensures Table(event, j1) == Table(event, j2)
  {
    forall k | 0 <= k < 4 ensures CountIn(event, j1, k) == CountIn(event, j2, k) {
      CountPermutation(event, j1, j2, k);
    }
  }

  lemma {:induction false} CountPermutation(event: string, j1: seq<Entry>, j2: seq<Entry>, k: nat)
    requires multiset(j1) == multiset(j2)
    ensures CountIn(event, j1, k) == CountIn(event, j2, k)
    decreases |j1|
  {
    if j1 == [] {
      assert |multiset(j2)| == 0;
    } else {
      var init, last := j1[..|j1| - 1], j1[|j1| - 1];
      assert j1 == init + [last];
      assert last in multiset(j2);
      var i :| 0 <= i < |j2| && j2[i] == last;
      var before, after := j2[..i], j2[i + 1..];
      assert j2 == before + [last] + after;
      MultisetCancel(init, last, before, after);
      CountPermutation(event, init, before + after, k);
      CountAppend(event, before, after, k);
      CountAppend(event, before + [last], after, k);
      CountAppend(event, before, [last], k);
      CountAppend(event, init, [last], k);
    }
  }

  lemma MultisetCancel<T>(init: seq<T>, last: T, before: seq<T>, after: seq<T>)
    requires multiset(init + [last]) == multiset(before + [last] + after)
    ensures multiset(init) == multiset(before + after)
  {
    assert multiset(init + [last]) == multiset(init) + multiset{last};
    assert multiset(before + [last] + after) == multiset(before) + multiset{last} + multiset(after);
    assert multiset(before + after) == multiset(before) + multiset(after);
    forall y ensures multiset(init)[y] == multiset(before + after)[y] {
      assert (multiset(init) + multiset{last})[y] == (multiset(before + after) + multiset{last})[y];
    }
  }

  // ---------------------------------------------------------------------
  // journalEvents

  /** All events of all entries, in journal order. */
  function AllEvents(journal: seq<Entry>): seq<string>
    decreases |journal|
  {
    if journal == [] then [] else AllEvents(journal[..|journal| - 1]) + journal[|journal| - 1].events
  }

  /** `journalEvents`: nested loops pushing every event not yet listed. */
  method JournalEvents(journal: seq<Entry>) returns (events: seq<string>)
    ensures events == Dedup(AllEvents(journal))
  {
    events := [];
    for i := 0 to |journal|
      invariant events == Dedup(AllEvents(journal[..i]))
    {
      var entry := journal[i];
      assert journal[..i + 1][..i] == journal[..i];
      ghost var seen := AllEvents(journal[..i]);
      assert AllEvents(journal[..i + 1]) == seen + entry.events;
      assert seen + entry.events[..0] == seen;
      for j := 0 to |entry.events|
        invariant events == Dedup(seen + entry.events[..j])
      {
        var event := entry.events[j];
        assert (seen + entry.events[..j + 1])[..|seen| + j] == seen + entry.events[..j];
        if event !in events {
          events := events + [event];
        }
      }
      assert entry.events[..|entry.events|] == entry.events;
    }
    assert journal[..|journal|] == journal;
  }

  /** What `journalEvents` returns: each event of each entry, once, in the
      order of first appearance. */
  lemma JournalEventsSpec(journal: seq<Entry>)
    ensures NoDup(Dedup(AllEvents(journal)))
    ensures forall e :: e in Dedup(AllEvents(journal)) <==> e in AllEvents(journal)
    ensures forall e :: e in Dedup(AllEvents(journal)) <==>
      exists i :: 0 <= i < |journal| && e in journal[i].events
    ensures forall i, j :: 0 <= i < j < |Dedup(AllEvents(journal))| ==>
      FirstIndex(AllEvents(journal), Dedup(AllEvents(journal))[i])
        < FirstIndex(AllEvents(journal), Dedup(AllEvents(journal))[j])
  {
    DedupNoDup(AllEvents(journal));
    DedupSameElements(AllEvents(journal));
    DedupFirstAppearanceOrder(AllEvents(journal));
    AllEventsMembers(journal);
  }

  lemma {:induction false} AllEventsMembers(journal: seq<Entry>)
    ensures forall e :: e in AllEvents(journal) <==>
      exists i :: 0 <= i < |journal| && e in journal[i].events
    decreases |journal|
  {
    if journal != [] {
      var init := journal[..|journal| - 1];
      AllEventsMembers(init);
      forall e | e in AllEvents(journal)
        ensures exists i :: 0 <= i < |journal| && e in journal[i].events
      {
        if e !in journal[|journal| - 1].events {
          assert e in AllEvents(init);
          var i :| 0 <= i < |init| && e in init[i].events;
          assert journal[i] == init[i];
        }
      }
      forall e | exists i :: 0 <= i < |journal| && e in journal[i].events
        ensures e in AllEvents(journal)
      {
        var i :| 0 <= i < |journal| && e in journal[i].events;
        if i < |init| {
          assert init[i] == journal[i];
        }
      }
    }
  }

  // ---------------------------------------------------------------------
  // The "peanut teeth" pass

  /** Whether the pass tags this entry: it ate peanuts and did not brush. */
  predicate NeedsTag(entry: Entry) {
    "peanuts" in entry.events && "brushed teeth" !in entry.events
  }

  /** The entry after the pass. */
  function Tagged(entry: Entry): Entry {
    if NeedsTag(entry) then entry.(events := entry.events + ["peanut teeth"]) else entry
  }

  /** The pass over the journal, pushing "peanut teeth" onto the events of
      every entry that needs it. */
  method TagPeanutTeeth(journal: array<Entry>)
    modifies journal
    ensures forall i :: 0 <= i < journal.Length ==> journal[i] == Tagged(old(journal[i]))
  {
    for i := 0 to journal.Length
      invariant forall k :: 0 <= k < i ==> journal[k] == Tagged(old(journal[k]))
      invariant forall k :: i <= k < journal.Length ==> journal[k] == old(journal[k])
    {
      var entry := journal[i];
      if "peanuts" in entry.events && "brushed teeth" !in entry.events {
        journal[i] := entry.(events := entry.events + ["peanut teeth"]);
      }
    }
  }

  /** A tagged entry keeps its events and squirrel flag and gains
      "peanut teeth" at the end exactly when it needs it. */
  lemma TaggedSpec(entry: Entry)
    ensures Tagged(entry).squirrel == entry.squirrel
    ensures NeedsTag(entry) ==> Tagged(entry).events == entry.events + ["peanut teeth"]
    ensures !NeedsTag(entry) ==> Tagged(entry) == entry
  {
  }

  /** Where no entry mentioned "peanut teeth" before the pass, afterwards an
      entry mentions it exactly when it ate peanuts and did not brush; so the
      table of "peanut teeth" counts exactly the tagged entries. */
  lemma {:induction false} TaggedEventMeaning(entry: Entry)
    requires "peanut teeth" !in entry.events
    ensures "peanut teeth" in Tagged(entry).events <==> NeedsTag(entry)
    ensures CellIndex("peanut teeth", Tagged(entry)) ==
      (if NeedsTag(entry) then 1 else 0) + (if entry.squirrel then 2 else 0)
  {
    if NeedsTag(entry) {
      assert Tagged(entry).events[|entry.events|] == "peanut teeth";
    }
  }

  // ---------------------------------------------------------------------
  // phi, as integers

  /** The numerator n11*n00 - n10*n01 of the second `phi`. */
  function PhiNumerator(table: seq<int>): int
    requires |table| == 4
  {
    table[3] * table[0] - table[2] * table[1]
  }

  /** The radicand of the second `phi`, destructured as [n00, n01, n10, n11]:
      the product of the four marginal sums. */
  function PhiRadicand(table: seq<int>): int
    requires |table| == 4
  {
    var n00, n01, n10, n11 := table[0], table[1], table[2], table[3];
    (n10 + n11) * (n00 + n01) * (n01 + n11) * (n00 + n10)
  }

  /** The radicand under the first `phi`'s square root, written over
      table indices. Its numerator is commented out, so the first `phi`
      returns only the square root of this value. */
  function FirstPhiRadicand(table: seq<int>): int
    requires |table| == 4
  {
    (table[2] + table[3]) * (table[0] + table[1]) * (table[1] + table[3]) * (table[0] + table[2])
  }

  /** Both `phi` definitions take the square root of the same value. */
  lemma PhiRadicandsAgree(table: seq<int>)
    requires |table| == 4
    ensures FirstPhiRadicand(table) == PhiRadicand(table)
  {
  }

  /** On a table of counts the radicand is never negative, it is zero
      exactly when some marginal sum is zero (where `phi` divides by zero),
      and the numerator's square never exceeds it: phi lies in [-1, 1]. */
  lemma PhiBounded(table: seq<int>)
    requires |table| == 4 && forall k :: 0 <= k < 4 ==> table[k] >= 0
    ensures PhiRadicand(table) >= 0
    ensures PhiRadicand(table) == 0 <==>
      table[2] + table[3] == 0 || table[0] + table[1] == 0 ||
      table[1] + table[3] == 0 || table[0] + table[2] == 0
    ensures PhiNumerator(table) * PhiNumerator(table) <= PhiRadicand(table)
  {
    var a, b, c, d := table[0], table[1], table[2], table[3];
    Regroup(c + d, a + b, b + d, a + c);
    ZeroProduct(c + d, a + b, b + d, a + c);
    NumeratorSquareBound(a, b, c, d);
  }

  lemma NumeratorSquareBound(a: nat, b: nat, c: nat, d: nat)
    ensures (d * a - c * b) * (d * a - c * b) <= ((c + d) * (a + b)) * ((b + d) * (a + c))
  {
    var p, q := (c + d) * (a + b), (b + d) * (a + c);
    Expand(c, d, a, b);
    Expand(b, d, a, c);
    var x, y := d * a, c * b;
    assert x >= 0 && y >= 0 && c * a >= 0 && d * b >= 0 && b * a >= 0 && d * c >= 0 by {
      NonNegProduct(d, a); NonNegProduct(c, b); NonNegProduct(c, a);
      NonNegProduct(d, b); NonNegProduct(b, a); NonNegProduct(d, c);
    }
    SquareDifference(x, y);
    NonNegProduct(x, y);
    MulMonotone(x + y, p, x + y, q);
  }

  lemma Expand(w: int, x: int, y: int, z: int)
    ensures (w + x) * (y + z) == w * y + w * z + x * y + x * z
  {
  }

  lemma NonNegProduct(x: int, y: int)
    requires x >= 0 && y >= 0
    ensures x * y >= 0
  {
  }

  lemma SquareDifference(x: int, y: int)
    ensures (x + y) * (x + y) - (x - y) * (x - y) == 4 * (x * y)
  {
  }

  lemma Regroup(w: int, x: int, y: int, z: int)
    ensures w * x * y * z == (w * x) * (y * z)
  {
  }

  lemma MulMonotone(a: int, b: int, c: int, d: int)
    requires 0 <= a <= b && 0 <= c <= d
    ensures a * c <= b * d
  {
    assert a * c <= b * c;
    assert b * c <= b * d;
  }

  lemma ZeroProduct(w: int, x: int, y: int, z: int)
    requires w >= 0 && x >= 0 && y >= 0 && z >= 0
    ensures w * x * y * z >= 0
    ensures w * x * y * z == 0 <==> w == 0 || x == 0 || y == 0 || z == 0
  {
    if w > 0 && x > 0 && y > 0 && z > 0 {
      assert w * x > 0;
      assert w * x * y > 0;
      assert w * x * y * z > 0;
    }
  }

  /** The table of two entries, one with the event on a squirrel day and one
      with neither, has phi = 1 / sqrt(1) = 1. */
  lemma PerfectCorrelationExample()
    ensures Table("x", [Entry(["x"], true), Entry([], false)]) == [1, 0, 0, 1]
    ensures PhiNumerator([1, 0, 0, 1]) == 1 && PhiRadicand([1, 0, 0, 1]) == 1
  {
    var j := [Entry(["x"], true), Entry([], false)];
    assert CellIndex("x", j[0]) == 3 && CellIndex("x", j[1]) == 0;
    assert j[..1] == [j[0]] && [j[0]][..0] == [];
    forall k | 0 <= k < 4 ensures CountIn("x", j, k) == if k == 0 || k == 3 then 1 else 0 {
      assert CountIn("x", [j[0]], k) == if k == 3 then 1 else 0;
    }
  }
}
