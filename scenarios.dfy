/** The behaviours the repository's own tests check, stated on the model. */
module Scenarios {
  import opened PhpArrays
  import opened Reorder
  import opened Mosaic

  /** `['second' => '2', 'first' => '1', 'last']` */
  function Fixture(): seq<Entry> {
    [(StrK("second"), Str("2")), (StrK("first"), Str("1")), (IntK(0), Str("last"))]
  }

  /** Sorting by the keys `[0, 'second', 'first']` gives
      `['last', 'second' => '2', 'first' => '1']`; an empty order changes
      nothing. */
  lemma {:induction false} SortByKeysScenario()
    ensures SortedByKeys(Fixture(), [IntK(0), StrK("second"), StrK("first")])
            == [(IntK(0), Str("last")), (StrK("second"), Str("2")), (StrK("first"), Str("1"))]
    ensures SortedByKeys(Fixture(), []) == Fixture()
  {
    SortByKeysRotate((StrK("second"), Str("2")), (StrK("first"), Str("1")), (IntK(0), Str("last")));
  }

  /** Listing the keys of a three-entry array as last, first, second moves
      the last entry to the front. */
  lemma {:induction false} SortByKeysRotate(a: Entry, b: Entry, c: Entry)
    requires a.0 != b.0 && b.0 != c.0 && a.0 != c.0
    ensures SortedByKeys([a, b, c], [c.0, a.0, b.0]) == [c, a, b]
  {
    RotateWorkingCopy(a, b, c);
    RotatePicked(a, b, c);
    Three(c.0, a.0, b.0);
    Three(c, a, b);
  }

  /** The working copy as the loop of `sortByArrayKeys` walks `[c, a, b]`. */
  lemma {:induction false} RotateWorkingCopy(a: Entry, b: Entry, c: Entry)
    requires a.0 != b.0 && b.0 != c.0 && a.0 != c.0
    ensures Without([a, b, c], []) == [a, b, c]
    ensures Without([a, b, c], [] + [c.0]) == [a, b]
    ensures Without([a, b, c], [] + [c.0] + [a.0]) == [b]
    ensures Without([a, b, c], [] + [c.0] + [a.0] + [b.0]) == []
  {
    var t := [a, b, c];
    WithoutNothing(t);
    WithoutSnoc(t, [], c.0);
    WithoutSnoc(t, [] + [c.0], a.0);
    WithoutSnoc(t, [] + [c.0] + [a.0], b.0);
    DropLast(a, b, c);
    DropFirst(a, b);
    DropOnly(b);
  }

  /** Unsetting the last key of `[a, b, c]`. */
  lemma {:induction false} DropLast(a: Entry, b: Entry, c: Entry)
    requires a.0 != c.0 && b.0 != c.0
    ensures Remove([a, b, c], c.0) == [a, b]
    ensures Lookup([a, b, c], c.0) == Some(c.1)
  {
    assert [a, b, c] == [a, b] + [c] + [] && [a, b] + [] == [a, b];
    RemoveSplit([a, b], c, []);
  }

  /** Unsetting the first key of `[a, b]`. */
  lemma {:induction false} DropFirst(a: Entry, b: Entry)
    requires a.0 != b.0
    ensures Remove([a, b], a.0) == [b]
    ensures Lookup([a, b], a.0) == Some(a.1)
  {
    assert [a, b] == [] + [a] + [b] && [] + [b] == [b];
    RemoveSplit([], a, [b]);
  }

  /** Unsetting the only key of `[b]`. */
  lemma {:induction false} DropOnly(b: Entry)
    ensures Remove([b], b.0) == []
    ensures Lookup([b], b.0) == Some(b.1)
  {
    assert [b] == [] + [b] + [];
    RemoveSplit([], b, []);
  }

  /** The ordered prefix as the loop of `sortByArrayKeys` walks `[c, a, b]`. */
  lemma {:induction false} RotatePicked(a: Entry, b: Entry, c: Entry)
    requires a.0 != b.0 && b.0 != c.0 && a.0 != c.0
    requires Without([a, b, c], []) == [a, b, c]
    requires Without([a, b, c], [] + [c.0]) == [a, b]
    requires Without([a, b, c], [] + [c.0] + [a.0]) == [b]
    ensures Picked([a, b, c], [] + [c.0] + [a.0] + [b.0]) == [] + [c] + [a] + [b]
  {
    var t := [a, b, c];
    DropLast(a, b, c);
    DropFirst(a, b);
    DropOnly(b);
    assert Picked(t, []) == [];
    PickedAppends(t, [], c, []);
    PickedAppends(t, [] + [c.0], a, [] + [c]);
    PickedAppends(t, [] + [c.0] + [a.0], b, [] + [c] + [a]);
  }

  /** Walking a listed key whose entry is still in the working copy appends
      that entry to a prefix that lacks its key. */
  lemma {:induction false} PickedAppends(t: seq<Entry>, init: seq<Key>, e: Entry, p0: seq<Entry>)
    requires Picked(t, init) == p0 && e.0 !in Keys(p0)
    requires Lookup(Without(t, init), e.0) == Some(e.1)
    ensures Picked(t, init + [e.0]) == p0 + [e]
  {
    PickedTakesKey(t, init, e.0, e.1);
  }

  /** Sorting by the values `['last', '2', '1']` gives
      `['last', 'second' => '2', 'first' => '1']`; an empty order changes
      nothing. */
  lemma {:induction false} SortByValuesScenario()
    ensures SortedByValues(Fixture(), [Str("last"), Str("2"), Str("1")], (x: Value, y: Value) => x == y)
            == [(IntK(0), Str("last")), (StrK("second"), Str("2")), (StrK("first"), Str("1"))]
    ensures SortedByValues(Fixture(), [], (x: Value, y: Value) => x == y) == Fixture()
  {
    SortByValuesRotate((StrK("second"), Str("2")), (StrK("first"), Str("1")), (IntK(0), Str("last")),
                       (x: Value, y: Value) => x == y);
  }

  /** Listing the values of a three-entry array, all different, as last,
      first, second moves the last entry to the front. */
  lemma {:induction false} SortByValuesRotate(a: Entry, b: Entry, c: Entry, eq: (Value, Value) -> bool)
    requires a.0 != b.0 && b.0 != c.0 && a.0 != c.0
    requires a.1 != b.1 && b.1 != c.1 && a.1 != c.1
    requires forall x, y :: eq(x, y) == (x == y)
    ensures ByValues([a, b, c], [c.1, a.1, b.1], eq) == [c, a, b]
  {
    StrictMatches(a, b, c, eq);
    RotateSteps([a, b, c], a, b, c, eq);
    Three(c.1, a.1, b.1);
    Three(c, a, b);
  }

  /** The three outer steps of the rotation. */
  lemma {:induction false} RotateSteps(t: seq<Entry>, a: Entry, b: Entry, c: Entry, eq: (Value, Value) -> bool)
    requires a.0 != b.0 && b.0 != c.0 && a.0 != c.0
    requires Matching(t, a.1, eq) == [a.0] && Matching(t, b.1, eq) == [b.0] && Matching(t, c.1, eq) == [c.0]
    ensures ByValues(t, [] + [c.1] + [a.1] + [b.1], eq) == [] + [c] + [a] + [b]
  {
    RotateFirstTwo(t, c, a, eq);
    KeysTwo(c, a);
    ByValuesAppendOne(t, [] + [c.1] + [a.1], [] + [c] + [a], b, eq);
  }

  /** The first two outer steps of the rotation. */
  lemma {:induction false} RotateFirstTwo(t: seq<Entry>, c: Entry, a: Entry, eq: (Value, Value) -> bool)
    requires a.0 != c.0
    requires Matching(t, c.1, eq) == [c.0] && Matching(t, a.1, eq) == [a.0]
    ensures ByValues(t, [] + [c.1] + [a.1], eq) == [] + [c] + [a]
  {
    assert ByValues(t, [], eq) == [];
    ByValuesAppendOne(t, [], [], c, eq);
    KeysTwo(c, a);
    ByValuesAppendOne(t, [] + [c.1], [] + [c], a, eq);
  }

  /** The keys of a one- and a two-entry array. */
  lemma {:induction false} KeysTwo(x: Entry, y: Entry)
    ensures Keys([] + [x]) == {x.0} && Keys([] + [x] + [y]) == {x.0, y.0}
  {
    assert forall e :: e in [] + [x] + [y] <==> e == x || e == y;
  }

  lemma {:induction false} Three<T>(x: T, y: T, z: T)
    ensures [] + [x] + [y] + [z] == [x, y, z]
  {
  }

  /** Under strict comparison each value of `[a, b, c]`, all different, is
      found under its own key only. */
  lemma {:induction false} StrictMatches(a: Entry, b: Entry, c: Entry, eq: (Value, Value) -> bool)
    requires a.1 != b.1 && b.1 != c.1 && a.1 != c.1
    requires forall x, y :: eq(x, y) == (x == y)
    ensures Matching([a, b, c], a.1, eq) == [a.0]
    ensures Matching([a, b, c], b.1, eq) == [b.0]
    ensures Matching([a, b, c], c.1, eq) == [c.0]
  {
    Matching3(a, b, c, a.1, eq);
    Matching3(a, b, c, b.1, eq);
    Matching3(a, b, c, c.1, eq);
  }

  /** One outer step whose value is found under a single new key appends
      that key's entry. */
  lemma {:induction false} ByValuesAppendOne(t: seq<Entry>, vs: seq<Value>, prev: seq<Entry>, e: Entry,
                                             loose: (Value, Value) -> bool)
    requires ByValues(t, vs, loose) == prev
    requires Matching(t, e.1, loose) == [e.0]
    requires e.0 !in Keys(prev)
    ensures ByValues(t, vs + [e.1], loose) == prev + [e]
  {
    ByValuesSnoc(t, vs, e.1, loose);
    AssignOne(prev, e);
  }

  /** `array_keys` with a search value, on a three-entry array. */
  lemma {:induction false} Matching3(a: Entry, b: Entry, c: Entry, w: Value, loose: (Value, Value) -> bool)
    ensures Matching([a, b, c], w, loose)
            == (if loose(a.1, w) then [a.0] else []) + (if loose(b.1, w) then [b.0] else [])
               + (if loose(c.1, w) then [c.0] else [])
  {
    MatchingCons(a, [b, c], w, loose);
    MatchingCons(b, [c], w, loose);
    MatchingCons(c, [], w, loose);
    assert [a] + [b, c] == [a, b, c] && [b] + [c] == [b, c] && [c] + [] == [c];
  }

  /** One step of `array_keys` with a search value. */
  lemma {:induction false} MatchingCons(e: Entry, rest: seq<Entry>, w: Value, loose: (Value, Value) -> bool)
    ensures Matching([e] + rest, w, loose) == (if loose(e.1, w) then [e.0] else []) + Matching(rest, w, loose)
  {
    assert ([e] + rest)[0] == e && ([e] + rest)[1..] == rest;
  }

  /** Writing one new key appends its entry. */
  lemma {:induction false} AssignOne(t: seq<Entry>, e: Entry)
    requires e.0 !in Keys(t)
    ensures AssignAll(t, [e.0], e.1) == t + [e]
  {
    assert [e.0][..0] == [];
  }

  /** `[1, 2, 3]` */
  function Numbers(): seq<Entry> {
    [(IntK(0), Int(1)), (IntK(1), Int(2)), (IntK(2), Int(3))]
  }

  /** On `[1, 2, 3]`: `$m[1]` is 2; after `$m[] = 4`, `$m[3]` is 4; after
      `$m[4] = 5`, `isset($m[4])` holds. */
  method ArrayAccessScenario() returns (second: Value, appended: Value, isSet: bool)
    ensures second == Int(2) && appended == Int(4) && isSet
  {
    var items := Numbers();
    assert IsList(items);
    ListNextFree(items);
    var m := new MosaicArray(items);
    assert (IntK(1), Int(2)) == m.target[1];
    second := m.OffsetGet(IntK(1));
    appended, isSet := AppendThenSet(m);
  }

  /** `$m[] = 4` on a valid list of three values stores 4 under key 3, and
      `$m[4] = 5` then makes key 4 set. */
  method AppendThenSet(m: MosaicArray) returns (appended: Value, isSet: bool)
    requires m.Valid() && |m.target| == 3 && m.nextFree == 3
    modifies m
    ensures appended == Int(4) && isSet
  {
    m.OffsetSet(None, Int(4));
    assert (IntK(3), Int(4)) == m.target[3];
    appended := m.OffsetGet(IntK(3));
    m.OffsetSet(Some(IntK(4)), Int(5));
    assert (IntK(4), Int(5)) in m.target;
    isSet := m.OffsetExists(IntK(4));
  }

  /** `count` of `[1, 2, 3]` is 3, and 2 once `$m[0]` is unset. */
  method CountScenario() returns (before: nat, after: nat)
    ensures before == 3 && after == 2
  {
    var items := Numbers();
    var head, rest := items[0], items[1..];
    assert items == [head] + rest;
    DistinctKeyCount(items);
    DistinctKeyCount(rest);
    var m := new MosaicArray(items);
    before := m.Count();
    m.OffsetUnset(IntK(0));
    DropHead(head, rest);
    after := m.Count();
  }

  /** Unsetting the first key of a PHP array leaves the rest. */
  lemma {:induction false} DropHead(e: Entry, rest: seq<Entry>)
    requires DistinctKeys([e] + rest)
    ensures Remove([e] + rest, e.0) == rest
  {
    DistinctCons([e] + rest);
    assert ([e] + rest)[1..] == rest;
    assert [e] + rest == [] + [e] + rest && [] + rest == rest;
    RemoveSplit([], e, rest);
  }

  /** Excluding by the rule `$key === 'key'` on
      `['key' => 'value', 1, 2, 3, 'numbers' => [1, 2, 3]]` leaves
      `[1, 2, 3, 'numbers' => [1, 2, 3]]`. */
  lemma {:induction false} ExcludeByKeyScenario(rule: (Key, Value) -> bool)
    requires forall k, v :: rule(k, v) == (k == StrK("key"))
    ensures Filter([(StrK("key"), Str("value"))] + Listed(), KeptBy(rule)) == Listed()
  {
    var e, rest := (StrK("key"), Str("value")), Listed();
    assert DistinctKeys(rest) && e.0 !in Keys(rest);
    DistinctConcat([e], rest);
    ExcludeOneKey([e] + rest, e.0, rule);
    DropHead(e, rest);
  }

  /** `[1, 2, 3, 'numbers' => [1, 2, 3]]` */
  function Listed(): seq<Entry> {
    Numbers() + [(StrK("numbers"), Arr(Numbers()))]
  }

  /** `find` on `[0, false, '', null]` gives the default: null, or
      `false` when that is the default asked for. */
  method FindNothingScenario() returns (bad: Value, badFalse: Value)
    ensures bad == Null && badFalse == Bool(false)
  {
    var items := [(IntK(0), Int(0)), (IntK(1), Bool(false)), (IntK(2), Str("")), (IntK(3), Null)];
    assert forall e :: e in items ==> !Truthy(e.1);
    var m := new MosaicArray(items);
    bad := m.Find(Null);
    badFalse := m.Find(Bool(false));
  }

  /** `find` on `[null, false, 'Mosaic Soft' => x]`: null when `x` is the
      empty array, and `x` itself when it is a non-empty nested array. */
  method FindNestedScenario() returns (emptyNested: Value, nested: Value)
    ensures emptyNested == Null
    ensures nested == Arr([(StrK("test"), Arr([(IntK(0), Str("hoo!"))]))])
  {
    emptyNested := FindAfterNullFalse(Arr([]));
    nested := FindAfterNullFalse(Arr([(StrK("test"), Arr([(IntK(0), Str("hoo!"))]))]));
  }

  /** `find()` on `[null, false, 'Mosaic Soft' => x]` gives `x` when it is
      truthy and null otherwise. */
  method FindAfterNullFalse(x: Value) returns (r: Value)
    ensures r == if Truthy(x) then x else Null
  {
    var m := new MosaicArray(NullFalseThen(x));
    r := m.Find(Null);
    if Truthy(x) {
      FirstTruthyIsThird(m.target, r);
    } else {
      assert forall e :: e in m.target ==> !Truthy(e.1);
    }
  }

  /** `[null, false, 'Mosaic Soft' => x]` */
  function NullFalseThen(x: Value): (t: seq<Entry>)
    ensures DistinctKeys(t) && |t| == 3 && t[2].1 == x
    ensures !Truthy(t[0].1) && !Truthy(t[1].1)
  {
    [(IntK(0), Null), (IntK(1), Bool(false)), (StrK("Mosaic Soft"), x)]
  }

  /** When only the third value can be the first truthy one, it is. */
  lemma {:induction false} FirstTruthyIsThird(t: seq<Entry>, r: Value)
    requires |t| == 3 && !Truthy(t[0].1) && !Truthy(t[1].1)
    requires exists i :: 0 <= i < |t| && r == t[i].1 && Truthy(r)
    ensures r == t[2].1
  {
  }
}
