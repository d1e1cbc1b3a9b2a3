/** What the two reordering operations of the container compute, as functions
    of the target array, and what is proved about them.

    `sortByArrayKeys($orderBy)` walks `$orderBy`, moves each listed entry
    still present in a working copy of the target into `$ordered`, and
    returns `$ordered + $rest`. `sortByArrayValues($orderBy)` walks
    `$orderBy` and, for each value, writes every target key holding an equal
    value into a fresh array, mapped to that `$orderBy` value. */
module Reorder {
  import opened PhpArrays

  /** The position of the first occurrence of `x` in `s`, or `|s|`. */
  function FirstIndex<T(==)>(s: seq<T>, x: T): (r: nat)
    ensures r <= |s|
    ensures r < |s| <==> x in s
    ensures r < |s| ==> s[r] == x
    ensures forall j :: 0 <= j < r ==> s[j] != x
  {
    if s == [] then 0
    else if s[0] == x then 0
    else 1 + FirstIndex(s[1..], x)
  }

  lemma {:induction false} FirstIndexSnoc(ks: seq<Key>, k: Key, x: Key)
    ensures x in ks ==> FirstIndex(ks + [k], x) == FirstIndex(ks, x)
    ensures x !in ks && x == k ==> FirstIndex(ks + [k], x) == |ks|
  {
    var i, j := FirstIndex(ks, x), FirstIndex(ks + [k], x);
    if x in ks {
      assert (ks + [k])[i] == x;
      assert j < |ks| ==> ks[j] == x;
    } else if x == k {
      assert (ks + [k])[|ks|] == x;
    }
  }

  /** `t` with every key listed in `ks` unset. */
  function Without(t: seq<Entry>, ks: seq<Key>): (r: seq<Entry>)
    ensures forall e :: e in r <==> e in t && e.0 !in ks
    ensures IsSubseq(r, t)
    ensures DistinctKeys(t) ==> DistinctKeys(r)
  {
    FilterSubseq(t, (e: Entry) => e.0 !in ks);
    FilterDistinctWhen(t, (e: Entry) => e.0 !in ks);
    Filter(t, (e: Entry) => e.0 !in ks)
  }

  /** Before the loop, the working copy is the whole target. */
  lemma WithoutNothing(t: seq<Entry>)
    ensures Without(t, []) == t
  {
    FilterKeepsAll(t, (e: Entry) => e.0 !in []);
  }

  /** Unsetting one more key from the working copy. */
  lemma {:induction false} WithoutSnoc(t: seq<Entry>, ks: seq<Key>, k: Key)
    ensures Without(t, ks + [k]) == Remove(Without(t, ks), k)
  {
    FilterFilter(t, (e: Entry) => e.0 !in ks, (e: Entry) => e.0 != k, (e: Entry) => e.0 !in ks + [k]);
  }

  /** The `$ordered` array after the loop of `sortByArrayKeys` has walked
      `ks`: a key is taken when the working copy (the target without the
      keys already walked) still has it. */
  function Picked(t: seq<Entry>, ks: seq<Key>): seq<Entry>
    decreases |ks|
  {
    if ks == [] then []
    else
      var init, k := ks[..|ks| - 1], ks[|ks| - 1];
      match Lookup(Without(t, init), k)
      case Some(v) => Assign(Picked(t, init), k, v)
      case None => Picked(t, init)
  }

  /** The loop step of `sortByArrayKeys`, on prefixes of `orderBy`. */
  lemma {:induction false} PickedPrefix(t: seq<Entry>, ks: seq<Key>, i: nat)
    requires i < |ks|
    ensures Without(t, ks[..i + 1]) == Remove(Without(t, ks[..i]), ks[i])
    ensures Picked(t, ks[..i + 1]) == match Lookup(Without(t, ks[..i]), ks[i])
                                      case Some(v) => Assign(Picked(t, ks[..i]), ks[i], v)
                                      case None => Picked(t, ks[..i])
  {
    assert ks[..i + 1] == ks[..i] + [ks[i]];
    assert ks[..i + 1][..i] == ks[..i];
    WithoutSnoc(t, ks[..i], ks[i]);
  }

  /** Walking one more listed key that the working copy holds. */
  lemma {:induction false} PickedTakesKey(t: seq<Entry>, init: seq<Key>, k: Key, v: Value)
    requires Lookup(Without(t, init), k) == Some(v)
    ensures Picked(t, init + [k]) == Assign(Picked(t, init), k, v)
  {
    var ks := init + [k];
    assert ks[..|ks| - 1] == init && ks[|ks| - 1] == k;
  }

  /** The array `sortByArrayKeys` returns. */
  function SortedByKeys(t: seq<Entry>, orderBy: seq<Key>): seq<Entry> {
    if orderBy == [] then t else Union(Picked(t, orderBy), Without(t, orderBy))
  }

  /** What the picked prefix is after walking `ks`: it takes, once each,
      the listed keys that the target has, with their target values, in the
      order of their first listing; together with the unlisted rest it holds
      every entry of the target exactly once. */
  ghost predicate PickedShaped(t: seq<Entry>, ks: seq<Key>) {
    && DistinctKeys(Picked(t, ks))
    && (forall e :: e in Picked(t, ks) ==> e in t)
    && (forall k :: k in Keys(Picked(t, ks)) <==> k in Keys(t) && k in ks)
    && multiset(Picked(t, ks)) + multiset(Without(t, ks)) == multiset(t)
    && (forall i, j :: 0 <= i < j < |Picked(t, ks)| ==>
          FirstIndex(ks, Picked(t, ks)[i].0) < FirstIndex(ks, Picked(t, ks)[j].0))
  }

  lemma {:induction false} PickedShape(t: seq<Entry>, ks: seq<Key>)
    requires DistinctKeys(t)
    ensures PickedShaped(t, ks)
    decreases |ks|
  {
    if ks == [] {
      FilterKeepsAll(t, (e: Entry) => e.0 !in ks);
    } else {
      var init, k := ks[..|ks| - 1], ks[|ks| - 1];
      assert ks == init + [k];
      PickedShape(t, init);
      match Lookup(Without(t, init), k)
      case Some(v) => PickedTakes(t, init, k, v);
      case None => PickedSkips(t, init, k);
    }
  }

  lemma {:induction false} PickedTakes(t: seq<Entry>, init: seq<Key>, k: Key, v: Value)
    requires DistinctKeys(t) && PickedShaped(t, init)
    requires Lookup(Without(t, init), k) == Some(v)
    ensures PickedShaped(t, init + [k])
  {
    var ks := init + [k];
    var p0, rest := Picked(t, init), Without(t, init);
    assert (k, v) in rest && k !in init;
    assert k !in Keys(p0);
    var p := p0 + [(k, v)];
    assert Picked(t, ks) == p by {
      assert ks[..|ks| - 1] == init && ks[|ks| - 1] == k;
    }
    DistinctConcat(p0, [(k, v)]);
    KeysConcat(p0, [(k, v)]);
    TakesMultiset(t, init, k, v);
    TakesOrder(p0, init, k, v);
  }

  lemma {:induction false} TakesMultiset(t: seq<Entry>, init: seq<Key>, k: Key, v: Value)
    requires DistinctKeys(t)
    requires multiset(Picked(t, init)) + multiset(Without(t, init)) == multiset(t)
    requires (k, v) in Without(t, init)
    ensures multiset(Picked(t, init) + [(k, v)]) + multiset(Without(t, init + [k])) == multiset(t)
  {
    WithoutSnoc(t, init, k);
    RemoveMultiset(Without(t, init), k, v);
  }

  lemma {:induction false} TakesOrder(p0: seq<Entry>, init: seq<Key>, k: Key, v: Value)
    requires forall i, j :: 0 <= i < j < |p0| ==> FirstIndex(init, p0[i].0) < FirstIndex(init, p0[j].0)
    requires forall e :: e in p0 ==> e.0 in init
    requires k !in init
    ensures forall i, j :: 0 <= i < j < |p0 + [(k, v)]| ==>
              FirstIndex(init + [k], (p0 + [(k, v)])[i].0) < FirstIndex(init + [k], (p0 + [(k, v)])[j].0)
  {
    var ks := init + [k];
    forall x | x in init ensures FirstIndex(ks, x) == FirstIndex(init, x) {
      FirstIndexSnoc(init, k, x);
    }
    FirstIndexSnoc(init, k, k);
    PickedOrderStep(p0, k, v, ks, |init|);
  }

  lemma {:induction false} PickedSkips(t: seq<Entry>, init: seq<Key>, k: Key)
    requires DistinctKeys(t) && PickedShaped(t, init)
    requires Lookup(Without(t, init), k) == None
    ensures PickedShaped(t, init + [k])
  {
    var ks := init + [k];
    assert ks[..|ks| - 1] == init;
    var p0, rest := Picked(t, init), Without(t, init);
    assert Picked(t, ks) == p0;
    WithoutSnoc(t, init, k);
    RemoveAbsent(rest, k);
    forall x | x in init ensures FirstIndex(ks, x) == FirstIndex(init, x) {
      FirstIndexSnoc(init, k, x);
    }
    forall e | e in t && e.0 == k ensures k in init {
      assert e !in rest;
    }
  }

  lemma {:induction false} PickedOrderStep(p0: seq<Entry>, k: Key, v: Value, ks: seq<Key>, n: nat)
    requires forall i, j :: 0 <= i < j < |p0| ==> FirstIndex(ks, p0[i].0) < FirstIndex(ks, p0[j].0)
    requires forall e :: e in p0 ==> FirstIndex(ks, e.0) < n
    requires FirstIndex(ks, k) == n
    ensures forall i, j :: 0 <= i < j < |p0 + [(k, v)]| ==>
              FirstIndex(ks, (p0 + [(k, v)])[i].0) < FirstIndex(ks, (p0 + [(k, v)])[j].0)
  {
    var p := p0 + [(k, v)];
    forall i, j | 0 <= i < j < |p| ensures FirstIndex(ks, p[i].0) < FirstIndex(ks, p[j].0) {
      if j == |p0| {
        assert p[i] in p0;
      } else {
        assert p[i] == p0[i] && p[j] == p0[j];
      }
    }
  }

  /** With a non-empty `orderBy`, the result is a reordering of the target:
      the same entries (so the same keys, the same value under each key and
      the same count), each once. */
  lemma {:induction false} SortByKeysPermutation(t: seq<Entry>, orderBy: seq<Key>)
    requires DistinctKeys(t)
    ensures multiset(SortedByKeys(t, orderBy)) == multiset(t)
    ensures DistinctKeys(SortedByKeys(t, orderBy))
    ensures |SortedByKeys(t, orderBy)| == |t|
    ensures forall e :: e in SortedByKeys(t, orderBy) <==> e in t
  {
    if orderBy != [] {
      var p, w := Picked(t, orderBy), Without(t, orderBy);
      PickedShape(t, orderBy);
      assert Keys(p) !! Keys(w) by {
        forall x | x in Keys(p) ensures x !in Keys(w) {}
      }
      DistinctConcat(p, w);
      assert multiset(p + w) == multiset(t);
      forall e ensures e in p + w <==> e in t {
        assert e in p + w <==> e in multiset(p + w);
        assert e in t <==> e in multiset(t);
      }
      assert |multiset(p + w)| == |p + w|;
    }
  }

  /** With a non-empty `orderBy`, the result is the picked prefix followed by
      the unlisted entries in their original order: the prefix holds the
      listed keys present in the target, ordered by their first listing. */
  lemma {:induction false} SortByKeysOrder(t: seq<Entry>, orderBy: seq<Key>)
    requires DistinctKeys(t) && orderBy != []
    ensures var p := Picked(t, orderBy);
            && SortedByKeys(t, orderBy) == p + Without(t, orderBy)
            && (forall k :: k in Keys(p) <==> k in Keys(t) && k in orderBy)
            && (forall e :: e in p ==> e in t)
            && (forall i, j :: 0 <= i < j < |p| ==> FirstIndex(orderBy, p[i].0) < FirstIndex(orderBy, p[j].0))
  {
    PickedShape(t, orderBy);
    var p, w := Picked(t, orderBy), Without(t, orderBy);
    assert Keys(p) !! Keys(w);
  }

  /** PHP's `array_keys($t, $w)`: the keys whose value equals `w` under the
      loose `==`, in the order of `t`. */
  function Matching(t: seq<Entry>, w: Value, loose: (Value, Value) -> bool): (r: seq<Key>)
    ensures forall k :: k in r <==> exists x :: (k, x) in t && loose(x, w)
  {
    if t == [] then []
    else
      assert t == [t[0]] + t[1..];
      (if loose(t[0].1, w) then [t[0].0] else []) + Matching(t[1..], w, loose)
  }

  /** In a PHP array, the keys `array_keys` returns follow the array's order. */
  lemma {:induction false} MatchingOrder(t: seq<Entry>, w: Value, loose: (Value, Value) -> bool)
    requires DistinctKeys(t)
    ensures forall i, j :: 0 <= i < j < |Matching(t, w, loose)| ==>
              IndexOfKey(t, Matching(t, w, loose)[i]) < IndexOfKey(t, Matching(t, w, loose)[j])
  {
    if t != [] {
      DistinctCons(t);
      MatchingOrder(t[1..], w, loose);
      var tail := Matching(t[1..], w, loose);
      assert forall k :: k in tail ==> k in Keys(t[1..]);
      var head: seq<Key> := if loose(t[0].1, w) then [t[0].0] else [];
      assert Matching(t, w, loose) == head + tail;
      ShiftedOrder(t, head, tail);
    }
  }

  /** The order step of `MatchingOrder`: keys of the tail sit one place
      further in `t`, after the head key. */
  lemma {:induction false} ShiftedOrder(t: seq<Entry>, head: seq<Key>, tail: seq<Key>)
    requires t != [] && t[0].0 !in Keys(t[1..])
    requires head == [] || head == [t[0].0]
    requires forall k :: k in tail ==> k in Keys(t[1..])
    requires forall i, j :: 0 <= i < j < |tail| ==> IndexOfKey(t[1..], tail[i]) < IndexOfKey(t[1..], tail[j])
    ensures forall i, j :: 0 <= i < j < |head + tail| ==> IndexOfKey(t, (head + tail)[i]) < IndexOfKey(t, (head + tail)[j])
  {
    TailShifted(t, tail);
    if head == [] {
      assert head + tail == tail;
    } else {
      HeadFirst(t, tail);
    }
  }

  lemma {:induction false} TailShifted(t: seq<Entry>, tail: seq<Key>)
    requires t != [] && t[0].0 !in Keys(t[1..])
    requires forall k :: k in tail ==> k in Keys(t[1..])
    requires forall i, j :: 0 <= i < j < |tail| ==> IndexOfKey(t[1..], tail[i]) < IndexOfKey(t[1..], tail[j])
    ensures forall i, j :: 0 <= i < j < |tail| ==> IndexOfKey(t, tail[i]) < IndexOfKey(t, tail[j])
    ensures forall k :: k in tail ==> IndexOfKey(t, k) > 0
  {
    forall k | k in tail ensures IndexOfKey(t, k) == 1 + IndexOfKey(t[1..], k) {
      IndexOfLaterKey(t, k);
    }
  }

  lemma {:induction false} HeadFirst(t: seq<Entry>, tail: seq<Key>)
    requires t != []
    requires forall i, j :: 0 <= i < j < |tail| ==> IndexOfKey(t, tail[i]) < IndexOfKey(t, tail[j])
    requires forall k :: k in tail ==> IndexOfKey(t, k) > 0
    ensures forall i, j :: 0 <= i < j < |[t[0].0] + tail| ==>
              IndexOfKey(t, ([t[0].0] + tail)[i]) < IndexOfKey(t, ([t[0].0] + tail)[j])
  {
    var r := [t[0].0] + tail;
    forall i, j | 0 <= i < j < |r| ensures IndexOfKey(t, r[i]) < IndexOfKey(t, r[j]) {
      assert r[j] == tail[j - 1] && tail[j - 1] in tail;
      if i > 0 {
        assert r[i] == tail[i - 1];
      }
    }
  }

  lemma {:induction false} IndexOfLaterKey(t: seq<Entry>, k: Key)
    requires t != [] && k in Keys(t[1..]) && t[0].0 !in Keys(t[1..])
    ensures IndexOfKey(t, k) == 1 + IndexOfKey(t[1..], k)
  {
  }

  /** Under distinct keys, `array_keys` returns exactly the keys whose stored
      value matches. */
  lemma {:induction false} MatchingLookup(t: seq<Entry>, w: Value, loose: (Value, Value) -> bool, k: Key)
    requires DistinctKeys(t)
    ensures k in Matching(t, w, loose) <==> Lookup(t, k).Some? && loose(Lookup(t, k).value, w)
  {
    if k in Matching(t, w, loose) {
      var x :| (k, x) in t && loose(x, w);
      LookupEntry(t, k, x);
    }
  }

  /** The inner loop of `sortByArrayValues`: `$result[$key] = $value` for
      each key of `ks` in turn. */
  function AssignAll(r: seq<Entry>, ks: seq<Key>, v: Value): (s: seq<Entry>)
    ensures Keys(s) == Keys(r) + set k | k in ks
    ensures DistinctKeys(r) ==> DistinctKeys(s)
    ensures DistinctKeys(r) ==> forall e :: e in s <==> (e in r && e.0 !in ks) || (e.0 in ks && e.1 == v)
    decreases |ks|
  {
    if ks == [] then r
    else
      var init, k := ks[..|ks| - 1], ks[|ks| - 1];
      assert ks == init + [k];
      Assign(AssignAll(r, init, v), k, v)
  }

  /** Writing keys never moves a key already present, and appends new keys
      in the order written; so if the old keys come in `less` order, every
      new key is `less`-after the old ones, and the new keys are in `less`
      order among themselves, the result is in `less` order. */
  lemma {:induction false} AssignAllSorted(r: seq<Entry>, ks: seq<Key>, v: Value, less: (Key, Key) -> bool)
    requires forall i, j :: 0 <= i < j < |r| ==> less(r[i].0, r[j].0)
    requires forall x, y :: x in Keys(r) && y in ks && y !in Keys(r) ==> less(x, y)
    requires forall i, j :: 0 <= i < j < |ks| && ks[i] !in Keys(r) && ks[j] !in Keys(r) ==> less(ks[i], ks[j])
    ensures forall i, j :: 0 <= i < j < |AssignAll(r, ks, v)| ==>
              less(AssignAll(r, ks, v)[i].0, AssignAll(r, ks, v)[j].0)
    decreases |ks|
  {
    if ks != [] {
      var init, k := ks[..|ks| - 1], ks[|ks| - 1];
      assert ks == init + [k];
      AssignAllSorted(r, init, v, less);
      var s0 := AssignAll(r, init, v);
      assert forall i, j :: 0 <= i < j < |s0| ==> less(s0[i].0, s0[j].0);
      if k in Keys(s0) {
        AssignOverwriteSorted(s0, k, v, less);
      } else {
        LastKeyAfter(r, ks, less);
        AssignAppendSorted(s0, k, v, less);
      }
    }
  }

  /** The last key written, when new, comes `less`-after every key already
      there or written before it. */
  lemma {:induction false} LastKeyAfter(r: seq<Entry>, ks: seq<Key>, less: (Key, Key) -> bool)
    requires ks != []
    requires forall x, y :: x in Keys(r) && y in ks && y !in Keys(r) ==> less(x, y)
    requires forall i, j :: 0 <= i < j < |ks| && ks[i] !in Keys(r) && ks[j] !in Keys(r) ==> less(ks[i], ks[j])
    requires ks[|ks| - 1] !in Keys(r)
    ensures forall x :: x in Keys(r) || x in ks[..|ks| - 1] ==> less(x, ks[|ks| - 1])
  {
    var init, k := ks[..|ks| - 1], ks[|ks| - 1];
    forall x | x in Keys(r) || x in init ensures less(x, k) {
      if x !in Keys(r) {
        var m :| 0 <= m < |init| && init[m] == x;
        assert ks[m] == x;
      }
    }
  }

  lemma {:induction false} AssignOverwriteSorted(s0: seq<Entry>, k: Key, v: Value, less: (Key, Key) -> bool)
    requires forall i, j :: 0 <= i < j < |s0| ==> less(s0[i].0, s0[j].0)
    requires k in Keys(s0)
    ensures forall i, j :: 0 <= i < j < |Assign(s0, k, v)| ==>
              less(Assign(s0, k, v)[i].0, Assign(s0, k, v)[j].0)
  {
    var s := Assign(s0, k, v);
    var n := IndexOfKey(s0, k);
    forall j | 0 <= j < |s| ensures s[j].0 == s0[j].0 {
      if j == n {
        assert s[j] == (k, v);
      }
    }
  }

  lemma {:induction false} AssignAppendSorted(s0: seq<Entry>, k: Key, v: Value, less: (Key, Key) -> bool)
    requires forall i, j :: 0 <= i < j < |s0| ==> less(s0[i].0, s0[j].0)
    requires k !in Keys(s0)
    requires forall x :: x in Keys(s0) ==> less(x, k)
    ensures forall i, j :: 0 <= i < j < |Assign(s0, k, v)| ==>
              less(Assign(s0, k, v)[i].0, Assign(s0, k, v)[j].0)
  {
    var s := Assign(s0, k, v);
    assert s == s0 + [(k, v)];
    forall i, j | 0 <= i < j < |s| ensures less(s[i].0, s[j].0) {
      if j == |s0| {
        assert s[i] == s0[i] && s[j] == (k, v);
        assert s0[i].0 in Keys(s0);
      } else {
        assert s[i] == s0[i] && s[j] == s0[j];
      }
    }
  }

  /** The position of the first value of `vs` that `x` equals, or `|vs|`. */
  function FirstMatch(x: Value, vs: seq<Value>, loose: (Value, Value) -> bool): (r: nat)
    ensures r <= |vs|
    ensures r < |vs| ==> loose(x, vs[r])
    ensures forall j :: 0 <= j < r ==> !loose(x, vs[j])
  {
    if vs == [] then 0
    else if loose(x, vs[0]) then 0
    else 1 + FirstMatch(x, vs[1..], loose)
  }

  /** The position of the last value of `vs` that `x` equals, or -1. */
  function LastMatch(x: Value, vs: seq<Value>, loose: (Value, Value) -> bool): (r: int)
    ensures -1 <= r < |vs|
    ensures r >= 0 ==> loose(x, vs[r])
    ensures forall j :: r < j < |vs| ==> !loose(x, vs[j])
  {
    if vs == [] then -1
    else if loose(x, vs[|vs| - 1]) then |vs| - 1
    else LastMatch(x, vs[..|vs| - 1], loose)
  }

  lemma {:induction false} FirstMatchSnoc(x: Value, vs: seq<Value>, w: Value, loose: (Value, Value) -> bool)
    ensures FirstMatch(x, vs + [w], loose) ==
              if FirstMatch(x, vs, loose) < |vs| then FirstMatch(x, vs, loose)
              else if loose(x, w) then |vs| else |vs| + 1
  {
    assert forall j :: 0 <= j < |vs| ==> (vs + [w])[j] == vs[j];
    assert (vs + [w])[|vs|] == w;
  }

  lemma {:induction false} LastMatchSnoc(x: Value, vs: seq<Value>, w: Value, loose: (Value, Value) -> bool)
    ensures LastMatch(x, vs + [w], loose) == if loose(x, w) then |vs| else LastMatch(x, vs, loose)
  {
    assert (vs + [w])[..|vs|] == vs;
  }

  /** The `$orderBy` position that decides where the key `k` of the target
      goes: the first listed value its target value equals, or `|vs|`. */
  function Rank(t: seq<Entry>, vs: seq<Value>, loose: (Value, Value) -> bool, k: Key): (r: nat)
    ensures r <= |vs|
    ensures r < |vs| ==> exists x :: (k, x) in t && loose(x, vs[r])
    ensures k !in Keys(t) ==> r == |vs|
  {
    match Lookup(t, k)
    case Some(x) => FirstMatch(x, vs, loose)
    case None => |vs|
  }

  /** The order `sortByArrayValues` produces: by rank, and keys of equal
      rank in the order of the target. */
  predicate Before(t: seq<Entry>, vs: seq<Value>, loose: (Value, Value) -> bool, a: Key, b: Key) {
    Rank(t, vs, loose, a) < Rank(t, vs, loose, b)
    || (Rank(t, vs, loose, a) == Rank(t, vs, loose, b) && IndexOfKey(t, a) < IndexOfKey(t, b))
  }

  /** The value `sortByArrayValues` stores for a target value `x`: the last
      listed value that `x` equals, since every later match overwrites. */
  predicate Mapped(vs: seq<Value>, loose: (Value, Value) -> bool, x: Value, w: Value) {
    LastMatch(x, vs, loose) >= 0 && w == vs[LastMatch(x, vs, loose)]
  }

  /** `$result` after the outer loop of `sortByArrayValues` has walked `vs`. */
  function ByValues(t: seq<Entry>, vs: seq<Value>, loose: (Value, Value) -> bool): seq<Entry>
    decreases |vs|
  {
    if vs == [] then []
    else
      var init, w := vs[..|vs| - 1], vs[|vs| - 1];
      AssignAll(ByValues(t, init, loose), Matching(t, w, loose), w)
  }

  /** The array `sortByArrayValues` returns. */
  function SortedByValues(t: seq<Entry>, orderBy: seq<Value>, loose: (Value, Value) -> bool): seq<Entry> {
    if orderBy == [] then t else ByValues(t, orderBy, loose)
  }

  /** What the result is after walking `vs`: one entry per target key whose
      value equals some listed value, holding the last such listed value,
      ordered by rank and then by target order. */
  ghost predicate ByValuesShaped(t: seq<Entry>, vs: seq<Value>, loose: (Value, Value) -> bool) {
    && DistinctKeys(ByValues(t, vs, loose))
    && (forall k :: k in Keys(ByValues(t, vs, loose)) <==> k in Keys(t) && Rank(t, vs, loose, k) < |vs|)
    && (forall e :: e in ByValues(t, vs, loose) <==>
          Lookup(t, e.0).Some? && Mapped(vs, loose, Lookup(t, e.0).value, e.1))
    && (forall i, j :: 0 <= i < j < |ByValues(t, vs, loose)| ==>
          Before(t, vs, loose, ByValues(t, vs, loose)[i].0, ByValues(t, vs, loose)[j].0))
  }

  /** How one more listed value changes a key's rank: an earlier match is
      kept; otherwise the new value ranks the key `|vs|` if it matches. */
  lemma {:induction false} RankSnoc(t: seq<Entry>, vs: seq<Value>, w: Value, loose: (Value, Value) -> bool, k: Key)
    ensures Rank(t, vs + [w], loose, k) ==
              if Rank(t, vs, loose, k) < |vs| then Rank(t, vs, loose, k)
              else if Lookup(t, k).Some? && loose(Lookup(t, k).value, w) then |vs|
              else |vs| + 1
  {
    if Lookup(t, k).Some? {
      FirstMatchSnoc(Lookup(t, k).value, vs, w, loose);
    }
  }

  /** One step of the outer loop of `sortByArrayValues`, unfolded. */
  lemma {:induction false} ByValuesSnoc(t: seq<Entry>, vs: seq<Value>, w: Value, loose: (Value, Value) -> bool)
    ensures ByValues(t, vs + [w], loose) == AssignAll(ByValues(t, vs, loose), Matching(t, w, loose), w)
  {
    var vs' := vs + [w];
    assert vs'[..|vs'| - 1] == vs && vs'[|vs'| - 1] == w;
  }

  /** The outer loop's step, on prefixes of the listed values. */
  lemma {:induction false} ByValuesPrefix(t: seq<Entry>, vs: seq<Value>, i: nat, loose: (Value, Value) -> bool)
    requires i < |vs|
    ensures ByValues(t, vs[..i + 1], loose) == AssignAll(ByValues(t, vs[..i], loose), Matching(t, vs[i], loose), vs[i])
  {
    assert vs[..i + 1] == vs[..i] + [vs[i]];
    ByValuesSnoc(t, vs[..i], vs[i], loose);
  }

  /** The inner loop's step, on prefixes of the keys. */
  lemma {:induction false} AssignAllPrefix(r: seq<Entry>, ks: seq<Key>, j: nat, v: Value)
    requires j < |ks|
    ensures AssignAll(r, ks[..j + 1], v) == Assign(AssignAll(r, ks[..j], v), ks[j], v)
  {
    assert ks[..j + 1][..j] == ks[..j];
  }

  lemma {:induction false} ByValuesShape(t: seq<Entry>, vs: seq<Value>, loose: (Value, Value) -> bool)
    requires DistinctKeys(t)
    ensures ByValuesShaped(t, vs, loose)
    decreases |vs|
  {
    if vs == [] {
      forall e ensures e !in ByValues(t, vs, loose) && !Mapped(vs, loose, e.1, e.1) {
      }
    } else {
      var init, w := vs[..|vs| - 1], vs[|vs| - 1];
      assert vs == init + [w];
      ByValuesShape(t, init, loose);
      ByValuesSnoc(t, init, w, loose);
      StepKeys(t, init, w, loose);
      StepEntries(t, init, w, loose);
      StepOrder(t, init, w, loose);
    }
  }

  lemma {:induction false} StepKeys(t: seq<Entry>, init: seq<Value>, w: Value, loose: (Value, Value) -> bool)
    requires DistinctKeys(t)
    requires forall k :: k in Keys(ByValues(t, init, loose)) <==> k in Keys(t) && Rank(t, init, loose, k) < |init|
    ensures forall k :: k in Keys(ByValues(t, init + [w], loose)) <==>
              k in Keys(t) && Rank(t, init + [w], loose, k) < |init + [w]|
  {
    ByValuesSnoc(t, init, w, loose);
    forall k ensures k in Keys(ByValues(t, init + [w], loose)) <==>
                     k in Keys(t) && Rank(t, init + [w], loose, k) < |init + [w]| {
      MatchingLookup(t, w, loose, k);
      RankSnoc(t, init, w, loose, k);
    }
  }

  lemma {:induction false} StepEntries(t: seq<Entry>, init: seq<Value>, w: Value, loose: (Value, Value) -> bool)
    requires DistinctKeys(t) && DistinctKeys(ByValues(t, init, loose))
    requires forall e :: e in ByValues(t, init, loose) <==>
               Lookup(t, e.0).Some? && Mapped(init, loose, Lookup(t, e.0).value, e.1)
    ensures forall e :: e in ByValues(t, init + [w], loose) <==>
              Lookup(t, e.0).Some? && Mapped(init + [w], loose, Lookup(t, e.0).value, e.1)
  {
    var vs := init + [w];
    ByValuesSnoc(t, init, w, loose);
    forall e ensures e in ByValues(t, vs, loose) <==> Lookup(t, e.0).Some? && Mapped(vs, loose, Lookup(t, e.0).value, e.1) {
      MatchingLookup(t, w, loose, e.0);
      if Lookup(t, e.0).Some? {
        var x := Lookup(t, e.0).value;
        LastMatchSnoc(x, init, w, loose);
        var m := LastMatch(x, init, loose);
        assert vs[|init|] == w;
        assert m >= 0 ==> vs[m] == init[m];
      }
    }
  }

  lemma {:induction false} StepOrder(t: seq<Entry>, init: seq<Value>, w: Value, loose: (Value, Value) -> bool)
    requires DistinctKeys(t)
    requires forall k :: k in Keys(ByValues(t, init, loose)) <==> k in Keys(t) && Rank(t, init, loose, k) < |init|
    requires forall i, j :: 0 <= i < j < |ByValues(t, init, loose)| ==>
               Before(t, init, loose, ByValues(t, init, loose)[i].0, ByValues(t, init, loose)[j].0)
    ensures forall i, j :: 0 <= i < j < |ByValues(t, init + [w], loose)| ==>
              Before(t, init + [w], loose, ByValues(t, init + [w], loose)[i].0, ByValues(t, init + [w], loose)[j].0)
  {
    var vs := init + [w];
    var b0, ks := ByValues(t, init, loose), Matching(t, w, loose);
    ByValuesSnoc(t, init, w, loose);
    OldKeysStayBefore(t, init, w, loose);
    NewKeysComeAfter(t, init, w, loose);
    NewKeysInTargetOrder(t, init, w, loose);
    var less := (a: Key, b: Key) => Before(t, vs, loose, a, b);
    AssignAllSorted(b0, ks, w, less);
  }

  lemma {:induction false} OldKeysStayBefore(t: seq<Entry>, init: seq<Value>, w: Value, loose: (Value, Value) -> bool)
    requires forall k :: k in Keys(ByValues(t, init, loose)) <==> k in Keys(t) && Rank(t, init, loose, k) < |init|
    requires forall i, j :: 0 <= i < j < |ByValues(t, init, loose)| ==>
               Before(t, init, loose, ByValues(t, init, loose)[i].0, ByValues(t, init, loose)[j].0)
    ensures forall i, j :: 0 <= i < j < |ByValues(t, init, loose)| ==>
              Before(t, init + [w], loose, ByValues(t, init, loose)[i].0, ByValues(t, init, loose)[j].0)
  {
    var b0 := ByValues(t, init, loose);
    forall i, j | 0 <= i < j < |b0| ensures Before(t, init + [w], loose, b0[i].0, b0[j].0) {
      assert b0[i].0 in Keys(b0) && b0[j].0 in Keys(b0);
      RankSnoc(t, init, w, loose, b0[i].0);
      RankSnoc(t, init, w, loose, b0[j].0);
    }
  }

  lemma {:induction false} NewKeysComeAfter(t: seq<Entry>, init: seq<Value>, w: Value, loose: (Value, Value) -> bool)
    requires DistinctKeys(t)
    requires forall k :: k in Keys(ByValues(t, init, loose)) <==> k in Keys(t) && Rank(t, init, loose, k) < |init|
    ensures forall x, y :: x in Keys(ByValues(t, init, loose)) && y in Matching(t, w, loose) && y !in Keys(ByValues(t, init, loose)) ==>
              Before(t, init + [w], loose, x, y)
  {
    var b0, ks := ByValues(t, init, loose), Matching(t, w, loose);
    forall x, y | x in Keys(b0) && y in ks && y !in Keys(b0) ensures Before(t, init + [w], loose, x, y) {
      RankSnoc(t, init, w, loose, x);
      RankSnoc(t, init, w, loose, y);
      MatchingLookup(t, w, loose, y);
    }
  }

  lemma {:induction false} NewKeysInTargetOrder(t: seq<Entry>, init: seq<Value>, w: Value, loose: (Value, Value) -> bool)
    requires DistinctKeys(t)
    requires forall k :: k in Keys(ByValues(t, init, loose)) <==> k in Keys(t) && Rank(t, init, loose, k) < |init|
    ensures forall i, j ::
              (0 <= i < j < |Matching(t, w, loose)| && Matching(t, w, loose)[i] !in Keys(ByValues(t, init, loose))
               && Matching(t, w, loose)[j] !in Keys(ByValues(t, init, loose))) ==>
              Before(t, init + [w], loose, Matching(t, w, loose)[i], Matching(t, w, loose)[j])
  {
    var b0, ks := ByValues(t, init, loose), Matching(t, w, loose);
    MatchingOrder(t, w, loose);
    forall i, j | 0 <= i < j < |ks| && ks[i] !in Keys(b0) && ks[j] !in Keys(b0)
      ensures Before(t, init + [w], loose, ks[i], ks[j])
    {
      RankSnoc(t, init, w, loose, ks[i]);
      RankSnoc(t, init, w, loose, ks[j]);
      MatchingLookup(t, w, loose, ks[i]);
      MatchingLookup(t, w, loose, ks[j]);
    }
  }

  /** With a non-empty `orderBy`, the result has one entry for each target
      key whose value equals some listed value, and no other; that entry
      holds the last listed value the target value equals; entries come in
      rank order, ties in target order; and the result is no longer than
      the target. */
  lemma {:induction false} SortByValuesResult(t: seq<Entry>, orderBy: seq<Value>, loose: (Value, Value) -> bool)
    requires DistinctKeys(t) && orderBy != []
    ensures var r := SortedByValues(t, orderBy, loose);
            && DistinctKeys(r)
            && (forall k :: k in Keys(r) <==> k in Keys(t) && Rank(t, orderBy, loose, k) < |orderBy|)
            && (forall e :: e in r <==> Lookup(t, e.0).Some? && Mapped(orderBy, loose, Lookup(t, e.0).value, e.1))
            && (forall i, j :: 0 <= i < j < |r| ==> Before(t, orderBy, loose, r[i].0, r[j].0))
            && |r| <= |t|
  {
    ByValuesShape(t, orderBy, loose);
    var r := ByValues(t, orderBy, loose);
    assert Keys(r) <= Keys(t);
    DistinctKeyCount(r);
    DistinctKeyCount(t);
    assert |Keys(r)| <= |Keys(t)| by {
      SubsetSize(Keys(r), Keys(t));
    }
  }

  lemma {:induction false} SubsetSize<T>(a: set<T>, b: set<T>)
    requires a <= b
    ensures |a| <= |b|
  {
    assert b == a + (b - a);
  }

  /** Under the strict comparison, `sortByArrayValues` keeps exactly the
      target entries whose value is listed, each unchanged, grouped in the
      order their values are first listed. */
  lemma {:induction false} SortByValuesStrict(t: seq<Entry>, orderBy: seq<Value>)
    requires DistinctKeys(t) && orderBy != []
    ensures var r := SortedByValues(t, orderBy, (a: Value, b: Value) => a == b);
            && (forall e :: e in r <==> e in t && e.1 in orderBy)
            && (forall i, j :: 0 <= i < j < |r| ==>
                  FirstIndex(orderBy, r[i].1) < FirstIndex(orderBy, r[j].1)
                  || (r[i].1 == r[j].1 && IndexOfKey(t, r[i].0) < IndexOfKey(t, r[j].0)))
  {
    var eq := (a: Value, b: Value) => a == b;
    SortByValuesResult(t, orderBy, eq);
    var r := SortedByValues(t, orderBy, eq);
    forall e ensures e in r <==> e in t && e.1 in orderBy {
      if e in t {
        LookupEntry(t, e.0, e.1);
      }
      match Lookup(t, e.0)
      case Some(x) =>
        var m := LastMatch(x, orderBy, eq);
        if e.1 in orderBy && x == e.1 {
          var n :| 0 <= n < |orderBy| && orderBy[n] == e.1;
          assert eq(x, orderBy[n]);
        }
      case None =>
    }
    forall i, j | 0 <= i < j < |r| ensures FirstIndex(orderBy, r[i].1) < FirstIndex(orderBy, r[j].1)
                                         || (r[i].1 == r[j].1 && IndexOfKey(t, r[i].0) < IndexOfKey(t, r[j].0))
    {
      assert r[i] in r && r[j] in r;
      StrictRank(t, orderBy, r[i]);
      StrictRank(t, orderBy, r[j]);
    }
  }

  lemma {:induction false} StrictRank(t: seq<Entry>, orderBy: seq<Value>, e: Entry)
    requires DistinctKeys(t) && e in t
    ensures Rank(t, orderBy, (a: Value, b: Value) => a == b, e.0) == FirstIndex(orderBy, e.1)
  {
    LookupEntry(t, e.0, e.1);
    var eq := (a: Value, b: Value) => a == b;
    var r := FirstMatch(e.1, orderBy, eq);
    var f := FirstIndex(orderBy, e.1);
    assert r < |orderBy| ==> orderBy[r] == e.1;
    assert f < |orderBy| ==> eq(e.1, orderBy[f]);
  }
}
