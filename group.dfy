/** The two `Group` classes of chapter 6, sets kept as a list of members in
    insertion order, and `GroupIterator`, which walks the second one. */
module Groups {
  import opened Base

  /** An iterator step: `{done: true}` or `{value, done: false}`. */
  datatype IterResult<T> = Done | Yield(value: T)

  // ---------------------------------------------------------------------
  // The first Group: `has` by `includes`

  class Group<T(==,!new)> {
    var members: seq<T>

    /** The set invariant: no value is a member twice. */
    ghost predicate Valid()
      reads this
    {
      NoDup(members)
    }

    constructor ()
      ensures Valid() && members == []
    {
      members := [];
    }

    /** `has(value)`: `members.includes(value)`. */
    predicate Has(value: T)
      reads this
    {
      value in members
    }

    /** `add(value)`: pushes `value` unless it is already a member. */
    method Add(value: T)
      requires Valid()
      modifies this
      ensures Valid()
      ensures members == if value in old(members) then old(members) else old(members) + [value]
    {
      if !Has(value) {
        members := members + [value];
      }
    }

    /** `delete(value)`: keeps every other member, in order. */
    method Delete(value: T)
      requires Valid()
      modifies this
      ensures Valid()
      ensures members == Remove(old(members), value)
      ensures !Has(value)
      ensures forall v :: v in old(members) && v != value ==> Has(v)
      ensures forall v :: Has(v) ==> v in old(members)
    {
      RemoveNoDup(members, value);
      RemoveElements(members, value);
      var kept := Remove(members, value);
      members := kept;
    }

    /** `Group.from(collection)`: a new group after adding each value in turn. */
    static method From(collection: seq<T>) returns (group: Group<T>)
      ensures fresh(group) && group.Valid()
      ensures group.members == Dedup(collection)
    {
      group := new Group();
      for i := 0 to |collection|
        invariant group.Valid() && group.members == Dedup(collection[..i])
      {
        assert collection[..i + 1][..i] == collection[..i];
        group.Add(collection[i]);
      }
      assert collection[..|collection|] == collection;
    }
  }

  /** Adding a member again leaves the group as it is. */
  lemma AddPresentUnchanged<T>(members: seq<T>, value: T)
    requires value in members
    ensures Dedup(members + [value]) == Dedup(members)
  {
    DedupSameElements(members);
    assert (members + [value])[..|members|] == members;
  }

  /** `Group.from(xs)` has exactly the values of `xs`, each once, in the
      order of their first occurrence. */
  lemma FromSpec<T>(xs: seq<T>)
    ensures NoDup(Dedup(xs))
    ensures forall v :: v in Dedup(xs) <==> v in xs
    ensures forall i, j :: 0 <= i < j < |Dedup(xs)| ==>
      FirstIndex(xs, Dedup(xs)[i]) < FirstIndex(xs, Dedup(xs)[j])
  {
    DedupNoDup(xs);
    DedupSameElements(xs);
    DedupFirstAppearanceOrder(xs);
  }

  /** The first example: `from([10, 20])` has 10 and not 30; after
      `add(10)` and `delete(10)` it no longer has 10. */
  method GroupExample() returns (has10: bool, has30: bool, hasAfterDelete: bool)
    ensures has10 && !has30 && !hasAfterDelete
  {
    var group := Group.From([10, 20]);
    DedupSameElements([10, 20]);
    has10 := group.Has(10);
    has30 := group.Has(30);
    group.Add(10);
    group.Delete(10);
    hasAfterDelete := group.Has(10);
  }

  // ---------------------------------------------------------------------
  // The second Group: `has` by `indexOf`, iterable

  /** A member of the iterable group: any value, `undefined` included,
      since the iterator treats an `undefined` member as the end. */
  datatype Member<T> = Undefined | Value(value: T)

  /** `indexOf`: the first position of `v`, or -1. */
  function IndexOf<T(==)>(s: seq<T>, v: T): (i: int)
    ensures -1 <= i < |s|
    ensures i >= 0 ==> s[i] == v && v !in s[..i]
    ensures i < 0 ==> v !in s
  {
    if s == [] then -1
    else if s[0] == v then 0
    else
      var rest := IndexOf(s[1..], v);
      if rest < 0 then -1 else 1 + rest
  }

  class IterableGroup<T(==)> {
    var members: seq<Member<T>>

    ghost predicate Valid()
      reads this
    {
      NoDup(members)
    }

    constructor ()
      ensures Valid() && members == []
    {
      members := [];
    }

    /** `has(val)`: false when `indexOf(val) < 0`, true otherwise. */
    predicate Has(val: Member<T>)
      reads this
    {
      if IndexOf(members, val) < 0 then false else true
    }

    method Add(val: Member<T>)
      requires Valid()
      modifies this
      ensures Valid()
      ensures members == if val in old(members) then old(members) else old(members) + [val]
    {
      if !Has(val) {
        members := members + [val];
      }
    }

    method Delete(val: Member<T>)
      requires Valid()
      modifies this
      ensures Valid()
      ensures members == Remove(old(members), val)
      ensures !Has(val)
    {
      RemoveNoDup(members, val);
      RemoveElements(members, val);
      members := Remove(members, val);
      HasVersionsAgree(members, val);
    }

    static method From(iterable: seq<Member<T>>) returns (group: IterableGroup<T>)
      ensures fresh(group) && group.Valid()
      ensures group.members == Dedup(iterable)
    {
      group := new IterableGroup();
      for i := 0 to |iterable|
        invariant group.Valid() && group.members == Dedup(iterable[..i])
      {
        assert iterable[..i + 1][..i] == iterable[..i];
        group.Add(iterable[i]);
      }
      assert iterable[..|iterable|] == iterable;
    }

    /** `[Symbol.iterator]()`. */
    method Iterator() returns (it: GroupIterator<T>)
      ensures fresh(it) && it.group == this && it.position == 0
    {
      it := new GroupIterator(this);
    }
  }

  /** The two `has` definitions agree: `indexOf(v) >= 0` exactly when
      `includes(v)`. */
  lemma HasVersionsAgree<T>(members: seq<T>, v: T)
    ensures IndexOf(members, v) >= 0 <==> v in members
  {
  }

  /** The members the iterator yields: those before the first `undefined`. */
  function DefinedPrefix<T>(members: seq<Member<T>>): (r: seq<T>)
    ensures |r| <= |members|
    ensures forall i :: 0 <= i < |r| ==> members[i] == Value(r[i])
    ensures |r| < |members| ==> members[|r|] == Undefined
  {
    if members == [] || members[0] == Undefined then []
    else [members[0].value] + DefinedPrefix(members[1..])
  }

  class GroupIterator<T(==)> {
    const group: IterableGroup<T>
    var position: nat

    constructor (group: IterableGroup<T>)
      ensures this.group == group && position == 0
    {
      this.group := group;
      position := 0;
    }

    /** `next()`: done at the end of the members or at an `undefined`
        member, which also leaves the position where it is; otherwise the
        member at the position, and the position moves on. */
    method Next() returns (r: IterResult<T>)
      modifies this
      ensures r.Done? <==> old(position) >= |group.members| || group.members[old(position)] == Undefined
      ensures r.Done? ==> position == old(position)
      ensures r.Yield? ==> group.members[old(position)] == Value(r.value) && position == old(position) + 1
    {
      if position >= |group.members| || group.members[position] == Undefined {
        return Done;
      }
      var value := group.members[position].value;
      position := position + 1;
      r := Yield(value);
    }
  }

  /** `for (let value of group)`: drives a fresh iterator of `group` until it
      is done; the values come out in member order, up to the first
      `undefined` member. */
  method ValuesOf<T(==)>(group: IterableGroup<T>) returns (values: seq<T>)
    ensures values == DefinedPrefix(group.members)
  {
    var it := group.Iterator();
    values := [];
    while true
      invariant fresh(it) && it.group == group
      invariant it.position <= |DefinedPrefix(group.members)|
      invariant values == DefinedPrefix(group.members)[..it.position]
      decreases |group.members| - it.position
    {
      var r := it.Next();
      if r.Done? {
        break;
      }
      values := values + [r.value];
    }
  }

  /** When no member is `undefined`, the iterator yields every member. */
  lemma {:induction false} DefinedPrefixAll<T>(members: seq<Member<T>>)
    requires Undefined !in members
    ensures |DefinedPrefix(members)| == |members|
  {
    if members != [] {
      DefinedPrefixAll(members[1..]);
    }
  }

  /** The second example: iterating `from(["a", "b", "c"])` yields a, b, c. */
  method IterationExample() returns (values: seq<string>)
    ensures values == ["a", "b", "c"]
  {
    var xs := [Value("a"), Value("b"), Value("c")];
    DedupOfDistinct(xs);
    var group := IterableGroup.From(xs);
    values := ValuesOf(group);
    DefinedPrefixAll(xs);
  }
}
