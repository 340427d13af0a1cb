/** `deepEqual` of chapter 4: structural comparison of JavaScript values,
    over primitives, `null`, `undefined` and plain key/value objects. */
module DeepEquality {
  import opened Base

  /** A JavaScript value. Numbers are integers; an array is the object whose
      keys are its indices. Objects are plain key/value records whose
      properties are listed in `Object.keys` order. */
  datatype JsValue =
    | Undefined
    | Null
    | Bool(b: bool)
    | Num(n: int)
    | Str(s: string)
    | Obj(props: seq<Prop>)

  datatype Prop = Prop(key: string, value: JsValue)

  /** The `typeof` operator; note `typeof null == "object"`. */
  function TypeOf(v: JsValue): string {
    match v
    case Undefined => "undefined"
    case Null => "object"
    case Bool(_) => "boolean"
    case Num(_) => "number"
    case Str(_) => "string"
    case Obj(_) => "object"
  }

  /** `v == null` with loose equality: true for both `null` and `undefined`. */
  predicate IsNullish(v: JsValue) {
    v == Null || v == Undefined
  }

  /** `a === b`. Primitives are compared by type and value. Two objects are
      `===` only when they are the same object, which implies equal
      contents; the model compares contents, and IdentityShortcutSound shows
      that this does not change what `deepEqual` returns. */
  predicate StrictEquals(a: JsValue, b: JsValue) {
    a == b
  }

  /** `Object.keys` of the properties. */
  function Keys(props: seq<Prop>): seq<string>
  {
    seq(|props|, i requires 0 <= i < |props| => props[i].key)
  }

  /** `obj[key]`: the value of the property named `key`, or `undefined`. */
  function Lookup(props: seq<Prop>, key: string): JsValue {
    if props == [] then Undefined
    else if props[0].key == key then props[0].value
    else Lookup(props[1..], key)
  }

  /** A value JavaScript can build: no object lists a key twice. */
  predicate WellFormed(v: JsValue) {
    match v
    case Obj(props) =>
      NoDup(Keys(props)) && forall i :: 0 <= i < |props| ==> WellFormed(props[i].value)
    case _ => true
  }

  /** `deepEqual(a, b)`. */
  function DeepEqual(a: JsValue, b: JsValue): bool
    decreases a, 1, 0
  {
    if StrictEquals(a, b) then true
    else if IsNullish(a) || TypeOf(a) != "object" || IsNullish(b) || TypeOf(b) != "object" then false
    else if |Keys(a.props)| != |Keys(b.props)| then false
    else KeysMatchFrom(a, b, 0)
  }

  /** The `for (let key of keysA)` loop from position `i` on, returning false
      at the first key missing from `b` or whose values differ. The i-th key
      of `a` names the i-th property, so `a[key]` is that property's value. */
  function KeysMatchFrom(a: JsValue, b: JsValue, i: nat): bool
    requires a.Obj? && b.Obj? && i <= |a.props|
    decreases a, 0, |a.props| - i
  {
    if i == |a.props| then true
    else
      var key := a.props[i].key;
      if key !in Keys(b.props) || !DeepEqual(a.props[i].value, Lookup(b.props, key)) then false
      else KeysMatchFrom(a, b, i + 1)
  }

  /** What the loop decides: every key from `i` on is present in `b` with a
      deep-equal value. */
  lemma {:induction false} KeysMatchFromMeaning(a: JsValue, b: JsValue, i: nat)
    requires a.Obj? && b.Obj? && i <= |a.props|
    ensures KeysMatchFrom(a, b, i) <==>
      forall j :: i <= j < |a.props| ==>
        a.props[j].key in Keys(b.props) && DeepEqual(a.props[j].value, Lookup(b.props, a.props[j].key))
    decreases |a.props| - i
  {
    if i < |a.props| {
      KeysMatchFromMeaning(a, b, i + 1);
    }
  }

  /** Identical values are deep-equal. */
  lemma DeepEqualIdentical(a: JsValue)
    ensures DeepEqual(a, a)
  {
  }

  /** When one side is `null`, `undefined` or a primitive and the two are not
      identical, they are not deep-equal. */
  lemma DeepEqualNonObjects(a: JsValue, b: JsValue)
    requires !StrictEquals(a, b)
    requires !a.Obj? || !b.Obj?
    ensures !DeepEqual(a, b)
  {
  }

  /** Two distinct objects are deep-equal exactly when they have as many keys
      and every key of `a` is a key of `b` with a deep-equal value. */
  lemma DeepEqualObjects(a: JsValue, b: JsValue)
    requires a.Obj? && b.Obj? && a != b
    ensures DeepEqual(a, b) <==>
      |a.props| == |b.props| &&
      forall j :: 0 <= j < |a.props| ==>
        a.props[j].key in Keys(b.props) && DeepEqual(a.props[j].value, Lookup(b.props, a.props[j].key))
  {
    KeysMatchFromMeaning(a, b, 0);
  }

  lemma {:induction false} LookupAt(props: seq<Prop>, i: nat)
    requires NoDup(Keys(props)) && i < |props|
    ensures Lookup(props, props[i].key) == props[i].value
  {
    if i > 0 {
      assert Keys(props)[0] != Keys(props)[i];
      assert NoDup(Keys(props[1..])) by {
        assert forall j :: 0 <= j < |props| - 1 ==> Keys(props[1..])[j] == Keys(props)[j + 1];
      }
      LookupAt(props[1..], i - 1);
    }
  }

  lemma {:induction false} DistinctCardinality(s: seq<string>)
    requires NoDup(s)
    ensures |set x | x in s| == |s|
  {
    if s != [] {
      var init := s[..|s| - 1];
      assert NoDup(init);
      DistinctCardinality(init);
      assert (set x | x in s) == (set x | x in init) + {s[|s| - 1]};
      assert s[|s| - 1] !in init;
    }
  }

  /** Two duplicate-free key lists of the same length, the first contained in
      the second, hold the same keys. */
  lemma SameKeys(ka: seq<string>, kb: seq<string>)
    requires NoDup(ka) && NoDup(kb) && |ka| == |kb|
    requires forall k :: k in ka ==> k in kb
    ensures forall k :: k in kb ==> k in ka
  {
    var A, B := set x | x in ka, set x | x in kb;
    DistinctCardinality(ka);
    DistinctCardinality(kb);
    assert A <= B;
    assert A * B == A && A + B == B;
    assert |A - B| + |B - A| + |A * B| == |A + B|;
    assert A - B == {};
    assert |B - A| == 0;
    assert B - A == {};
    forall k | k in kb ensures k in ka {
      assert k in B;
      assert k !in B - A;
    }
  }

  /** One direction of symmetry, by induction on `a`. */
  lemma {:induction false} DeepEqualFlip(a: JsValue, b: JsValue)
    requires WellFormed(a) && WellFormed(b)
    requires DeepEqual(a, b)
    ensures DeepEqual(b, a)
    decreases a
  {
    if !StrictEquals(a, b) {
      assert a.Obj? && b.Obj?;
      KeysMatchFromMeaning(a, b, 0);
      KeysMatchFromMeaning(b, a, 0);
      var ka, kb := Keys(a.props), Keys(b.props);
      forall k | k in ka ensures k in kb {
        var j :| 0 <= j < |a.props| && ka[j] == k;
      }
      SameKeys(ka, kb);
      forall j | 0 <= j < |b.props|
        ensures b.props[j].key in ka && DeepEqual(b.props[j].value, Lookup(a.props, b.props[j].key))
      {
        var key := b.props[j].key;
        assert key == kb[j];
        var i :| 0 <= i < |a.props| && ka[i] == key;
        LookupAt(a.props, i);
        LookupAt(b.props, j);
        DeepEqualFlip(a.props[i].value, b.props[j].value);
      }
    }
  }

  /** Deep equality is symmetric on values JavaScript can build. */
  lemma DeepEqualSymmetric(a: JsValue, b: JsValue)
    requires WellFormed(a) && WellFormed(b)
    ensures DeepEqual(a, b) == DeepEqual(b, a)
  {
    if DeepEqual(a, b) {
      DeepEqualFlip(a, b);
    }
    if DeepEqual(b, a) {
      DeepEqualFlip(b, a);
    }
  }

  /** `deepEqual` with the `===` shortcut kept only for primitives: two
      objects are always compared key by key. */
  function StructurallyEqual(a: JsValue, b: JsValue): bool
    decreases a, 1, 0
  {
    if !a.Obj? && StrictEquals(a, b) then true
    else if IsNullish(a) || TypeOf(a) != "object" || IsNullish(b) || TypeOf(b) != "object" then false
    else if |Keys(a.props)| != |Keys(b.props)| then false
    else StructurallyMatchFrom(a, b, 0)
  }

  function StructurallyMatchFrom(a: JsValue, b: JsValue, i: nat): bool
    requires a.Obj? && b.Obj? && i <= |a.props|
    decreases a, 0, |a.props| - i
  {
    if i == |a.props| then true
    else
      var key := a.props[i].key;
      if key !in Keys(b.props) || !StructurallyEqual(a.props[i].value, Lookup(b.props, key)) then false
      else StructurallyMatchFrom(a, b, i + 1)
  }

  /** Comparing a well-formed object with itself key by key succeeds. */
  lemma {:induction false} StructurallyReflexive(a: JsValue)
    requires WellFormed(a)
    ensures StructurallyEqual(a, a)
    decreases a, 1
  {
    if a.Obj? {
      StructurallyReflexiveFrom(a, 0);
    }
  }

  lemma {:induction false} StructurallyReflexiveFrom(a: JsValue, i: nat)
    requires WellFormed(a) && a.Obj? && i <= |a.props|
    ensures StructurallyMatchFrom(a, a, i)
    decreases a, 0, |a.props| - i
  {
    if i < |a.props| {
      LookupAt(a.props, i);
      assert Keys(a.props)[i] == a.props[i].key;
      StructurallyReflexive(a.props[i].value);
      StructurallyReflexiveFrom(a, i + 1);
    }
  }

  /** The identity test only short-cuts comparisons that would succeed
      anyway: on well-formed values, `deepEqual` gives the same answer as
      the key-by-key comparison. So modelling object identity by equal
      contents does not change the result. */
  lemma {:induction false} IdentityShortcutSound(a: JsValue, b: JsValue)
    requires WellFormed(a) && WellFormed(b)
    ensures DeepEqual(a, b) == StructurallyEqual(a, b)
    decreases a, 1
  {
    if a == b {
      StructurallyReflexive(a);
    } else if a.Obj? && b.Obj? && |a.props| == |b.props| {
      IdentityShortcutSoundFrom(a, b, 0);
    }
  }

  lemma {:induction false} IdentityShortcutSoundFrom(a: JsValue, b: JsValue, i: nat)
    requires WellFormed(a) && WellFormed(b) && a.Obj? && b.Obj? && i <= |a.props|
    ensures KeysMatchFrom(a, b, i) == StructurallyMatchFrom(a, b, i)
    decreases a, 0, |a.props| - i
  {
    if i < |a.props| {
      var key := a.props[i].key;
      if key in Keys(b.props) {
        var j :| 0 <= j < |b.props| && Keys(b.props)[j] == key;
        LookupAt(b.props, j);
        IdentityShortcutSound(a.props[i].value, Lookup(b.props, key));
      }
      IdentityShortcutSoundFrom(a, b, i + 1);
    }
  }

  /** Key order is irrelevant, a missing key matters, and `null` and
      primitives of different types are never deep-equal. */
  lemma DeepEqualExamples()
    ensures DeepEqual(Obj([Prop("a", Num(1)), Prop("b", Num(2))]),
                      Obj([Prop("b", Num(2)), Prop("a", Num(1))]))
    ensures !DeepEqual(Obj([Prop("a", Num(1))]), Obj([Prop("a", Num(1)), Prop("b", Num(2))]))
    ensures !DeepEqual(Null, Obj([]))
    ensures !DeepEqual(Num(5), Str("5"))
  {
    var a := Obj([Prop("a", Num(1)), Prop("b", Num(2))]);
    var b := Obj([Prop("b", Num(2)), Prop("a", Num(1))]);
    assert Keys(b.props) == ["b", "a"];
    assert Lookup(b.props, "a") == Num(1);
    assert Lookup(b.props, "b") == Num(2);
    assert KeysMatchFrom(a, b, 2);
    assert KeysMatchFrom(a, b, 1);
    assert KeysMatchFrom(a, b, 0);
  }
}
