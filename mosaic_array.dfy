/** The `MosaicArray` container: an object wrapping one PHP array, its
    target, with queries over the target, the two reordering operations,
    rule-based exclusion, and the `ArrayAccess` and `Countable` operations
    that read and update the target in place. */
module Mosaic {
  import opened PhpArrays
  import opened Reorder

  /** What `toArray($key)` evaluates to: a value, or PHP's "Undefined index"
      notice, after which the expression yields null. */
  datatype Fetch = Got(value: Value) | UndefinedIndex

  class MosaicArray {
    /** The target array. */
    var target: seq<Entry>
    /** The target's append counter: the key that `$target[] = $v` uses. */
    var nextFree: int

    /** The target is a PHP array (distinct keys) and the append counter is
        past every integer key it holds. */
    ghost predicate Valid()
      reads this
    {
      && DistinctKeys(target)
      && nextFree >= 0
      && forall e :: e in target && e.0.IntK? ==> e.0.i < nextFree
    }

    /** `new MosaicArray($array)`: the target is the given array. */
    constructor(items: seq<Entry>)
      requires DistinctKeys(items)
      ensures Valid()
      ensures target == items && nextFree == NextFree(items)
    {
      target := items;
      nextFree := NextFree(items);
    }

    /** `MosaicArray::make($array)`, the static constructor. */
    static method Make(items: seq<Entry>) returns (m: MosaicArray)
      requires DistinctKeys(items)
      ensures fresh(m) && m.Valid()
      ensures m.target == items && m.nextFree == NextFree(items)
    {
      m := new MosaicArray(items);
    }

    /** `replaceTarget($target)`: the new array becomes the target and the
        same object is returned for chaining. */
    method ReplaceTarget(items: seq<Entry>) returns (self: MosaicArray)
      requires DistinctKeys(items)
      modifies this
      ensures Valid() && self == this
      ensures target == items && nextFree == NextFree(items)
    {
      target := items;
      nextFree := NextFree(items);
      self := this;
    }

    /** `toArray($key)`: the whole target when the key is falsy (`null`,
        `0`, `""` or `"0"`), otherwise the value stored under the key, and
        an undefined-index notice when there is none. */
    function ToArray(key: Option<Key>): (r: Fetch)
      reads this
      requires Valid()
      ensures !KeyTruthy(key) ==> r == Got(Arr(target))
      ensures KeyTruthy(key) ==> (r.Got? <==> key.value in Keys(target))
      ensures KeyTruthy(key) && r.Got? ==> (key.value, r.value) in target
      ensures KeyTruthy(key) ==> forall v :: (key.value, v) in target ==> r == Got(v)
    {
      if KeyTruthy(key) then
        LookupUnique(target, key.value);
        match Lookup(target, key.value)
        case Some(v) => Got(v)
        case None => UndefinedIndex
      else
        Got(Arr(target))
    }

    /** `getItem($key, $defaultResult)`: the value under `key` when it is
        set (present and not null), otherwise the default. */
    function GetItem(key: Key, default: Value): (r: Value)
      reads this
      requires Valid()
      ensures forall v :: (key, v) in target && v != Null ==> r == v
      ensures (forall v :: (key, v) in target ==> v == Null) ==> r == default
    {
      LookupUnique(target, key);
      match Lookup(target, key)
      case Some(v) => if v != Null then v else default
      case None => default
    }

    /** `hasIntersections($array, $strict, $returnIntersection)`: looks for
        the first target value that `in_array` finds among the values of
        `array`; gives that value (or `true`) if there is one, else `false`. */
    method HasIntersections(items: seq<Entry>, strict: bool, loose: (Value, Value) -> bool, returnIntersection: bool)
      returns (r: Value)
      ensures (forall e :: e in target ==> !InArray(e.1, items, strict, loose)) ==> r == Bool(false)
      ensures (exists e :: e in target && InArray(e.1, items, strict, loose)) ==>
                exists i :: 0 <= i < |target| && InArray(target[i].1, items, strict, loose)
                  && (forall j :: 0 <= j < i ==> !InArray(target[j].1, items, strict, loose))
                  && r == if returnIntersection then target[i].1 else Bool(true)
    {
      var i := 0;
      while i < |target|
        invariant 0 <= i <= |target|
        invariant forall j :: 0 <= j < i ==> !InArray(target[j].1, items, strict, loose)
      {
        if InArray(target[i].1, items, strict, loose) {
          return if returnIntersection then target[i].1 else Bool(true);
        }
        i := i + 1;
      }
      return Bool(false);
    }

    /** `find($defaultResult)`: the first truthy value of the target, or the
        default when there is none. */
    method Find(default: Value) returns (r: Value)
      ensures (forall e :: e in target ==> !Truthy(e.1)) ==> r == default
      ensures (exists e :: e in target && Truthy(e.1)) ==>
                exists i :: 0 <= i < |target| && r == target[i].1 && Truthy(r)
                  && forall j :: 0 <= j < i ==> !Truthy(target[j].1)
    {
      var i := 0;
      while i < |target|
        invariant 0 <= i <= |target|
        invariant forall j :: 0 <= j < i ==> !Truthy(target[j].1)
      {
        if Truthy(target[i].1) {
          return target[i].1;
        }
        i := i + 1;
      }
      return default;
    }

    /** `except($keys)`: the target without the listed keys; an empty list
        gives the target itself. */
    function Except(keys: seq<Key>): (r: seq<Entry>)
      reads this
      ensures keys == [] ==> r == target
      ensures forall e :: e in r <==> e in target && e.0 !in keys
      ensures IsSubseq(r, target)
      ensures DistinctKeys(target) ==> DistinctKeys(r)
    {
      if keys == [] then SubseqRefl(target); target else Without(target, keys)
    }

    /** `only($keys)`: the target entries whose keys are listed, in target
        order; an empty list gives the empty array. */
    function Only(keys: seq<Key>): (r: seq<Entry>)
      reads this
      ensures keys == [] ==> r == []
      ensures forall e :: e in r <==> e in target && e.0 in keys
      ensures IsSubseq(r, target)
      ensures DistinctKeys(target) ==> DistinctKeys(r)
    {
      FilterSubseq(target, (e: Entry) => e.0 in keys);
      FilterDistinctWhen(target, (e: Entry) => e.0 in keys);
      if keys == [] then FilterNone(target, (e: Entry) => e.0 in keys); [] else Filter(target, (e: Entry) => e.0 in keys)
    }

    /** `sortByArrayKeys($orderBy)`: the listed keys first, in the order
        listed, then the remaining entries in target order. */
    method SortByArrayKeys(orderBy: seq<Key>) returns (r: seq<Entry>)
      requires Valid()
      ensures r == SortedByKeys(target, orderBy)
      ensures orderBy == [] ==> r == target
      ensures multiset(r) == multiset(target) && DistinctKeys(r)
    {
      r := target;
      if orderBy != [] {
        assert orderBy[..0] == [];
        FilterKeepsAll(target, (e: Entry) => e.0 !in orderBy[..0]);
        var ordered: seq<Entry> := [];
        var i := 0;
        while i < |orderBy|
          invariant 0 <= i <= |orderBy|
          invariant r == Without(target, orderBy[..i])
          invariant ordered == Picked(target, orderBy[..i])
        {
          var key := orderBy[i];
          PickedPrefix(target, orderBy, i);
          match Lookup(r, key) {
            case Some(v) =>
              ordered := Assign(ordered, key, v);
              r := Remove(r, key);
            case None =>
              RemoveAbsent(r, key);
          }
          i := i + 1;
        }
        assert orderBy[..i] == orderBy;
        r := Union(ordered, r);
      }
      SortByKeysPermutation(target, orderBy);
    }

    /** `sortByArrayValues($orderBy)`: for each listed value in turn, every
        target key whose value equals it (loosely) is written into a fresh
        array, mapped to the listed value. */
    method SortByArrayValues(orderBy: seq<Value>, loose: (Value, Value) -> bool) returns (r: seq<Entry>)
      requires Valid()
      ensures r == SortedByValues(target, orderBy, loose)
      ensures orderBy == [] ==> r == target
      ensures orderBy != [] ==> DistinctKeys(r) && |r| <= |target|
    {
      if orderBy == [] {
        return target;
      }
      r := [];
      var i := 0;
      while i < |orderBy|
        invariant 0 <= i <= |orderBy|
        invariant r == ByValues(target, orderBy[..i], loose)
      {
        var value := orderBy[i];
        var keys := Matching(target, value, loose);
        var j := 0;
        while j < |keys|
          invariant 0 <= j <= |keys|
          invariant r == AssignAll(ByValues(target, orderBy[..i], loose), keys[..j], value)
        {
          AssignAllPrefix(ByValues(target, orderBy[..i], loose), keys, j, value);
          r := Assign(r, keys[j], value);
          j := j + 1;
        }
        assert keys[..j] == keys;
        ByValuesPrefix(target, orderBy, i, loose);
        i := i + 1;
      }
      assert orderBy[..i] == orderBy;
      SortByValuesResult(target, orderBy, loose);
    }

    /** `excludeByRule($rule)`: the target without the entries the rule
        accepts, the rest in target order (see `Excluded`). */
    method ExcludeByRule(rule: (Key, Value) -> bool) returns (r: seq<Entry>)
      requires Valid()
      ensures r == Filter(target, KeptBy(rule))
    {
      var t, keep := target, KeptBy(rule);
      r := t;
      var i := 0;
      while i < |t|
        invariant 0 <= i <= |t|
        invariant r == Filter(t[..i], keep) + t[i..]
      {
        var key, value := t[i].0, t[i].1;
        if rule(key, value) {
          ExcludeDropStep(t, i, keep);
          r := Remove(r, key);
        } else {
          ExcludeKeepStep(t, i, keep);
        }
        i := i + 1;
      }
      assert r == Filter(t, keep) by {
        assert t[..i] == t && t[i..] == [];
      }
    }

    /** `$m[$offset] = $value`: a null offset appends under the append
        counter, any other offset writes under that key. */
    method OffsetSet(offset: Option<Key>, value: Value)
      requires Valid()
      modifies this
      ensures Valid()
      ensures offset.None? ==> target == old(target) + [(IntK(old(nextFree)), value)]
                               && nextFree == old(nextFree) + 1
      ensures offset.Some? ==> target == Assign(old(target), offset.value, value)
                               && nextFree == Bump(old(nextFree), offset.value)
      ensures var k := if offset.None? then IntK(old(nextFree)) else offset.value;
              Lookup(target, k) == Some(value)
    {
      if offset.None? {
        assert IntK(nextFree) !in Keys(target);
        DistinctConcat(target, [(IntK(nextFree), value)]);
        target := target + [(IntK(nextFree), value)];
        nextFree := nextFree + 1;
      } else {
        target := Assign(target, offset.value, value);
        nextFree := Bump(nextFree, offset.value);
      }
      LookupEntry(target, if offset.None? then IntK(nextFree - 1) else offset.value, value);
    }

    /** `isset($m[$offset])`: the key is present and its value is not null. */
    function OffsetExists(offset: Key): (b: bool)
      reads this
      requires Valid()
      ensures b <==> OffsetGet(offset) != Null
      ensures b <==> exists v :: (offset, v) in target && v != Null
    {
      LookupUnique(target, offset);
      match Lookup(target, offset)
      case Some(v) => v != Null
      case None => false
    }

    /** `unset($m[$offset])`: the entry goes, the others keep their order,
        and the append counter is not lowered. */
    method OffsetUnset(offset: Key)
      requires Valid()
      modifies this
      ensures Valid()
      ensures target == Remove(old(target), offset) && nextFree == old(nextFree)
      ensures offset !in Keys(target)
      ensures |target| == if offset in Keys(old(target)) then |old(target)| - 1 else |old(target)|
    {
      target := Remove(target, offset);
    }

    /** `$m[$offset]`: the value under the key when it is set, else null. */
    function OffsetGet(offset: Key): (r: Value)
      reads this
      requires Valid()
      ensures forall v :: (offset, v) in target ==> r == v
      ensures offset !in Keys(target) ==> r == Null
    {
      GetItem(offset, Null)
    }

    /** `count($m)`: the number of entries, which is the number of keys. */
    function Count(): (n: nat)
      reads this
      requires Valid()
      ensures n == |Keys(target)|
    {
      DistinctKeyCount(target);
      |target|
    }
  }

  /** The entries `excludeByRule` keeps: those the rule rejects. */
  function KeptBy(rule: (Key, Value) -> bool): Entry -> bool {
    (e: Entry) => !rule(e.0, e.1)
  }

  /** What `excludeByRule` keeps: the entries the rule rejects, in order,
      and everything when the rule rejects every entry. */
  lemma {:induction false} Excluded(t: seq<Entry>, rule: (Key, Value) -> bool)
    requires DistinctKeys(t)
    ensures forall e :: e in Filter(t, KeptBy(rule)) <==> e in t && !rule(e.0, e.1)
    ensures IsSubseq(Filter(t, KeptBy(rule)), t)
    ensures DistinctKeys(Filter(t, KeptBy(rule)))
    ensures (forall e :: e in t ==> !rule(e.0, e.1)) ==> Filter(t, KeptBy(rule)) == t
  {
    var keep := KeptBy(rule);
    FilterSubseq(t, keep);
    FilterDistinct(t, keep);
    if forall e :: e in t ==> !rule(e.0, e.1) {
      FilterKeepsAll(t, keep);
    }
  }

  /** A rule that accepts exactly one key excludes what `unset` removes. */
  lemma {:induction false} ExcludeOneKey(t: seq<Entry>, k: Key, rule: (Key, Value) -> bool)
    requires forall e :: e in t ==> rule(e.0, e.1) == (e.0 == k)
    ensures Filter(t, KeptBy(rule)) == Remove(t, k)
  {
    FilterAgree(t, KeptBy(rule), (e: Entry) => e.0 != k);
  }

  /** One step of `excludeByRule`'s loop when the rule rejects the entry:
      it stays. */
  lemma {:induction false} ExcludeKeepStep(t: seq<Entry>, i: nat, keep: Entry -> bool)
    requires i < |t| && keep(t[i])
    ensures Filter(t[..i + 1], keep) + t[i + 1..] == Filter(t[..i], keep) + t[i..]
  {
    var f, e, post := Filter(t[..i], keep), t[i], t[i + 1..];
    assert t[..i + 1] == t[..i] + [e];
    FilterSnoc(t[..i], e, keep);
    assert t[i..] == [e] + post;
  }

  /** One step of `excludeByRule`'s loop when the rule accepts the entry:
      unsetting its key removes it and nothing else. */
  lemma {:induction false} ExcludeDropStep(t: seq<Entry>, i: nat, keep: Entry -> bool)
    requires DistinctKeys(t) && i < |t| && !keep(t[i])
    ensures Filter(t[..i + 1], keep) + t[i + 1..] == Remove(Filter(t[..i], keep) + t[i..], t[i].0)
  {
    var f, e, post := Filter(t[..i], keep), t[i], t[i + 1..];
    calc {
      Filter(t[..i + 1], keep) + post;
    == { assert t[..i + 1] == t[..i] + [e]; FilterSnoc(t[..i], e, keep); }
      f + post;
    == { KeyNotElsewhere(t, i); FilterKeys(t[..i], keep); RemoveSplit(f, e, post); }
      Remove(f + [e] + post, e.0);
    == { assert t[i..] == [e] + post; assert f + ([e] + post) == f + [e] + post; }
      Remove(f + t[i..], e.0);
    }
  }

  /** `only($keys)` and `except($keys)` split the target between them, every
      entry landing in exactly one; an empty list sends them all to
      `except`. */
  lemma {:induction false} OnlyExceptSplit(m: MosaicArray, keys: seq<Key>)
    ensures multiset(m.Only(keys)) + multiset(m.Except(keys)) == multiset(m.target)
  {
    if keys != [] {
      FilterSplit(m.target, (e: Entry) => e.0 in keys, (e: Entry) => e.0 !in keys);
    }
  }
}
