/** The part of PHP's value model that the container relies on: keys, values,
    ordered arrays (an insertion-ordered map from keys to values, written here
    as a sequence of entries with pairwise distinct keys), and the handful of
    array primitives the container calls: lookup, keyed write, unset, the
    union operator `+`, filtering, and the append counter. */
module PhpArrays {

  datatype Option<+T> = None | Some(value: T)

  /** An array key. String keys that look like integers are not
      canonicalised here (PHP would turn "5" into 5). */
  datatype Key = IntK(i: int) | StrK(s: string)

  /** The values the container stores. Floats, objects and resources are not
      modelled; a nested array is an `Arr`. */
  datatype Value =
    | Null
    | Bool(b: bool)
    | Int(n: int)
    | Str(s: string)
    | Arr(entries: seq<(Key, Value)>)

  type Entry = (Key, Value)

  /** PHP's truthiness of a value used as a condition. It is shallow on
      arrays: any non-empty array is truthy, whatever it contains. */
  predicate Truthy(v: Value) {
    match v
    case Null => false
    case Bool(b) => b
    case Int(n) => n != 0
    case Str(s) => s != "" && s != "0"
    case Arr(a) => a != []
  }

  /** A key read back as a value (`0` as `Int(0)`, `"a"` as `Str("a")`). */
  function KeyValue(k: Key): Value {
    match k
    case IntK(i) => Int(i)
    case StrK(s) => Str(s)
  }

  /** Truthiness of an optional key argument, `null` being falsy. */
  predicate KeyTruthy(k: Option<Key>) {
    k.Some? && Truthy(KeyValue(k.value))
  }

  /** PHP's `in_array($needle, $haystack, $strict)`: some value of the
      haystack equals the needle, under `===` when `strict` holds and under
      the loose `==` supplied by the caller otherwise. */
  predicate InArray(needle: Value, haystack: seq<Entry>, strict: bool, loose: (Value, Value) -> bool) {
    exists e :: e in haystack && (if strict then needle == e.1 else loose(needle, e.1))
  }

  /** The values PHP treats as false in a condition: `null`, `false`, `0`,
      `""`, `"0"` and the empty array; a nested array is truthy as soon as
      it has an entry, whatever that entry holds. */
  lemma {:induction false} FalsyValues(v: Value)
    ensures !Truthy(v) <==> v in {Null, Bool(false), Int(0), Str(""), Str("0"), Arr([])}
    ensures v.Arr? ==> (Truthy(v) <==> |v.entries| > 0)
  {
  }

  /** The keys for which `toArray($key)` reads the whole array: no key, `0`,
      `""` and `"0"`. */
  lemma {:induction false} FalsyKeys(k: Option<Key>)
    ensures !KeyTruthy(k) <==> k in {None, Some(IntK(0)), Some(StrK("")), Some(StrK("0"))}
  {
  }

  /** Strict `in_array` finds the needle exactly when some key stores that
      very value. */
  lemma {:induction false} InArrayStrict(needle: Value, haystack: seq<Entry>, loose: (Value, Value) -> bool)
    ensures InArray(needle, haystack, true, loose) <==> exists k :: (k, needle) in haystack
  {
    if exists k :: (k, needle) in haystack {
      var k :| (k, needle) in haystack;
      assert (k, needle).1 == needle;
    }
  }

  function Keys(t: seq<Entry>): set<Key> {
    set e | e in t :: e.0
  }

  /** Every PHP array has pairwise distinct keys. */
  ghost predicate DistinctKeys(t: seq<Entry>) {
    forall i, j | 0 <= i < j < |t| :: t[i].0 != t[j].0
  }

  /** `a` is `b` with some entries deleted: same entries, same relative order. */
  ghost predicate IsSubseq(a: seq<Entry>, b: seq<Entry>)
    decreases |b|
  {
    a == [] || (b != [] && ((a[0] == b[0] && IsSubseq(a[1..], b[1..])) || IsSubseq(a, b[1..])))
  }

  lemma {:induction false} KeysCons(t: seq<Entry>)
    requires t != []
    ensures Keys(t) == {t[0].0} + Keys(t[1..])
  {
    assert t == [t[0]] + t[1..];
  }

  lemma {:induction false} KeysConcat(a: seq<Entry>, b: seq<Entry>)
    ensures Keys(a + b) == Keys(a) + Keys(b)
  {
  }

  lemma {:induction false} DistinctCons(t: seq<Entry>)
    requires t != []
    ensures DistinctKeys(t) <==> t[0].0 !in Keys(t[1..]) && DistinctKeys(t[1..])
  {
    if DistinctKeys(t) {
      forall e | e in t[1..] ensures e.0 != t[0].0 {
        var j :| 0 <= j < |t[1..]| && t[1..][j] == e;
        assert t[j + 1] == e;
      }
    }
    if t[0].0 !in Keys(t[1..]) && DistinctKeys(t[1..]) {
      forall i, j | 0 <= i < j < |t| ensures t[i].0 != t[j].0 {
        if i == 0 {
          assert t[j] in t[1..];
        } else {
          assert t[i] == t[1..][i - 1] && t[j] == t[1..][j - 1];
        }
      }
    }
  }

  /** In a PHP array a key determines its value. */
  lemma {:induction false} SameKeySameValue(t: seq<Entry>, k: Key, v: Value, w: Value)
    requires DistinctKeys(t) && (k, v) in t && (k, w) in t
    ensures v == w
  {
    var i :| 0 <= i < |t| && t[i] == (k, v);
    var j :| 0 <= j < |t| && t[j] == (k, w);
    assert i == j;
  }

  /** The number of entries of a PHP array is the number of its keys. */
  lemma {:induction false} DistinctKeyCount(t: seq<Entry>)
    requires DistinctKeys(t)
    ensures |Keys(t)| == |t|
  {
    if t != [] {
      KeysCons(t);
      DistinctCons(t);
      DistinctKeyCount(t[1..]);
    }
  }

  lemma {:induction false} KeyCountWhenDistinct(t: seq<Entry>)
    ensures DistinctKeys(t) ==> |Keys(t)| == |t|
  {
    if DistinctKeys(t) {
      DistinctKeyCount(t);
    }
  }

  /** The value stored under `k`, if any. */
  function Lookup(t: seq<Entry>, k: Key): (r: Option<Value>)
    ensures r.None? <==> k !in Keys(t)
    ensures r.Some? ==> (k, r.value) in t
  {
    if t == [] then None
    else if t[0].0 == k then Some(t[0].1)
    else (KeysCons(t); Lookup(t[1..], k))
  }

  /** In a PHP array, `Lookup` finds the one entry that holds the key. */
  lemma {:induction false} LookupEntry(t: seq<Entry>, k: Key, v: Value)
    requires DistinctKeys(t) && (k, v) in t
    ensures Lookup(t, k) == Some(v)
  {
    SameKeySameValue(t, k, v, Lookup(t, k).value);
  }

  /** The entries a lookup finds are the only ones under their key. */
  lemma {:induction false} LookupUnique(t: seq<Entry>, k: Key)
    requires DistinctKeys(t)
    ensures forall v :: (k, v) in t ==> Lookup(t, k) == Some(v)
  {
    forall v | (k, v) in t ensures Lookup(t, k) == Some(v) {
      LookupEntry(t, k, v);
    }
  }

  /** The position of key `k` in `t`, or `|t|` when absent. */
  function IndexOfKey(t: seq<Entry>, k: Key): (r: nat)
    ensures r <= |t|
    ensures r < |t| <==> k in Keys(t)
    ensures r < |t| ==> t[r].0 == k
    ensures forall j :: 0 <= j < r ==> t[j].0 != k
  {
    if t == [] then 0
    else if t[0].0 == k then 0
    else (KeysCons(t); 1 + IndexOfKey(t[1..], k))
  }

  /** The entries of `t` that `keep` accepts, in their order in `t`. This is
      the effect of copying an array and unsetting every other entry. */
  function Filter(t: seq<Entry>, keep: Entry -> bool): (r: seq<Entry>)
    ensures |r| <= |t|
    ensures forall e :: e in r <==> e in t && keep(e)
  {
    if t == [] then []
    else
      var rest := Filter(t[1..], keep);
      assert t == [t[0]] + t[1..];
      if keep(t[0]) then [t[0]] + rest else rest
  }

  lemma {:induction false} FilterKeys(t: seq<Entry>, keep: Entry -> bool)
    ensures Keys(Filter(t, keep)) <= Keys(t)
  {
  }

  /** Filtering keeps the relative order of the entries it keeps. */
  lemma {:induction false} FilterSubseq(t: seq<Entry>, keep: Entry -> bool)
    ensures IsSubseq(Filter(t, keep), t)
  {
    if t != [] {
      FilterSubseq(t[1..], keep);
      var rest := Filter(t[1..], keep);
      if keep(t[0]) {
        assert ([t[0]] + rest)[0] == t[0] && ([t[0]] + rest)[1..] == rest;
      }
    }
  }

  /** Filtering a PHP array gives a PHP array. */
  lemma {:induction false} FilterDistinct(t: seq<Entry>, keep: Entry -> bool)
    requires DistinctKeys(t)
    ensures DistinctKeys(Filter(t, keep))
  {
    if t != [] {
      DistinctCons(t);
      FilterDistinct(t[1..], keep);
      var rest := Filter(t[1..], keep);
      if keep(t[0]) {
        assert ([t[0]] + rest)[0] == t[0] && ([t[0]] + rest)[1..] == rest;
        assert t[0].0 !in Keys(rest);
        DistinctCons([t[0]] + rest);
      }
    }
  }

  lemma {:induction false} FilterDistinctWhen(t: seq<Entry>, keep: Entry -> bool)
    ensures DistinctKeys(t) ==> DistinctKeys(Filter(t, keep))
  {
    if DistinctKeys(t) {
      FilterDistinct(t, keep);
    }
  }

  lemma {:induction false} FilterConcat(a: seq<Entry>, b: seq<Entry>, keep: Entry -> bool)
    ensures Filter(a + b, keep) == Filter(a, keep) + Filter(b, keep)
  {
    if a == [] {
      assert a + b == b;
    } else {
      assert (a + b)[1..] == a[1..] + b;
      FilterConcat(a[1..], b, keep);
    }
  }

  /** Filtering with a predicate that accepts every entry changes nothing. */
  lemma {:induction false} FilterKeepsAll(t: seq<Entry>, keep: Entry -> bool)
    requires forall e :: e in t ==> keep(e)
    ensures Filter(t, keep) == t
  {
    if t != [] {
      assert forall e :: e in t[1..] ==> e in t;
      FilterKeepsAll(t[1..], keep);
    }
  }

  /** Two predicates that agree on the entries of `t` filter it alike. */
  lemma {:induction false} FilterAgree(t: seq<Entry>, p: Entry -> bool, q: Entry -> bool)
    requires forall e :: e in t ==> p(e) == q(e)
    ensures Filter(t, p) == Filter(t, q)
  {
    if t != [] {
      assert forall e :: e in t[1..] ==> e in t;
      FilterAgree(t[1..], p, q);
    }
  }

  /** Filtering twice is filtering once by both predicates. */
  lemma {:induction false} FilterFilter(t: seq<Entry>, p: Entry -> bool, q: Entry -> bool, both: Entry -> bool)
    requires forall e :: both(e) == (p(e) && q(e))
    ensures Filter(Filter(t, p), q) == Filter(t, both)
  {
    if t != [] {
      FilterFilter(t[1..], p, q, both);
      var rest := Filter(t[1..], p);
      if p(t[0]) {
        assert ([t[0]] + rest)[0] == t[0] && ([t[0]] + rest)[1..] == rest;
      }
    }
  }

  /** Filtering by a predicate and by its negation splits the array: each
      entry lands in exactly one of the two parts. */
  lemma {:induction false} FilterSplit(t: seq<Entry>, p: Entry -> bool, q: Entry -> bool)
    requires forall e :: q(e) == !p(e)
    ensures multiset(Filter(t, p)) + multiset(Filter(t, q)) == multiset(t)
  {
    if t != [] {
      FilterSplit(t[1..], p, q);
      var a, b := Filter(t[1..], p), Filter(t[1..], q);
      assert multiset(t) == multiset{t[0]} + multiset(t[1..]) by {
        assert t == [t[0]] + t[1..];
      }
      if p(t[0]) {
        assert Filter(t, p) == [t[0]] + a && Filter(t, q) == b;
        assert multiset([t[0]] + a) == multiset{t[0]} + multiset(a);
      } else {
        assert Filter(t, p) == a && Filter(t, q) == [t[0]] + b;
        assert multiset([t[0]] + b) == multiset{t[0]} + multiset(b);
      }
    }
  }

  /** Filtering by a predicate no entry meets leaves nothing. */
  lemma {:induction false} FilterNone(t: seq<Entry>, keep: Entry -> bool)
    requires forall e :: e in t ==> !keep(e)
    ensures Filter(t, keep) == []
  {
    if t != [] {
      assert forall e :: e in t[1..] ==> e in t;
      FilterNone(t[1..], keep);
    }
  }

  /** Filtering an array with one more entry at the end. */
  lemma {:induction false} FilterSnoc(a: seq<Entry>, e: Entry, keep: Entry -> bool)
    ensures Filter(a + [e], keep) == Filter(a, keep) + (if keep(e) then [e] else [])
  {
    FilterConcat(a, [e], keep);
    assert [e][1..] == [];
  }

  lemma {:induction false} SubseqRefl(t: seq<Entry>)
    ensures IsSubseq(t, t)
  {
    if t != [] {
      SubseqRefl(t[1..]);
    }
  }

  lemma {:induction false} DistinctConcat(a: seq<Entry>, b: seq<Entry>)
    requires DistinctKeys(a) && DistinctKeys(b) && Keys(a) !! Keys(b)
    ensures DistinctKeys(a + b)
  {
    forall i, j | 0 <= i < j < |a + b| ensures (a + b)[i].0 != (a + b)[j].0 {
      if j < |a| {
        assert (a + b)[i] == a[i] && (a + b)[j] == a[j];
      } else if i >= |a| {
        assert (a + b)[i] == b[i - |a|] && (a + b)[j] == b[j - |a|];
      } else {
        assert (a + b)[i] in a && (a + b)[j] in b;
        assert (a + b)[i].0 in Keys(a) && (a + b)[j].0 in Keys(b);
      }
    }
  }

  /** PHP's `unset($t[$k])`: the entry under `k` disappears, every other
      entry stays where it was. */
  function Remove(t: seq<Entry>, k: Key): (r: seq<Entry>)
    ensures forall e :: e in r <==> e in t && e.0 != k
    ensures Keys(r) == Keys(t) - {k}
    ensures IsSubseq(r, t)
    ensures DistinctKeys(t) ==> DistinctKeys(r) && |r| == if k in Keys(t) then |t| - 1 else |t|
  {
    var r := Filter(t, (e: Entry) => e.0 != k);
    FilterSubseq(t, (e: Entry) => e.0 != k);
    FilterDistinctWhen(t, (e: Entry) => e.0 != k);
    KeyCountWhenDistinct(t);
    KeyCountWhenDistinct(r);
    r
  }

  /** Unsetting a key that is absent changes nothing. */
  lemma {:induction false} RemoveAbsent(t: seq<Entry>, k: Key)
    requires k !in Keys(t)
    ensures Remove(t, k) == t
  {
    FilterKeepsAll(t, (e: Entry) => e.0 != k);
  }

  lemma {:induction false} RemoveConcat(a: seq<Entry>, b: seq<Entry>, k: Key)
    ensures Remove(a + b, k) == Remove(a, k) + Remove(b, k)
  {
    FilterConcat(a, b, (e: Entry) => e.0 != k);
  }

  /** In a PHP array the key at position `i` occurs nowhere else. */
  lemma {:induction false} KeyNotElsewhere(t: seq<Entry>, i: nat)
    requires DistinctKeys(t) && i < |t|
    ensures t[i].0 !in Keys(t[..i]) && t[i].0 !in Keys(t[i + 1..])
  {
    forall e | e in t[..i] ensures e.0 != t[i].0 {
      var j :| 0 <= j < i && t[..i][j] == e;
    }
    forall e | e in t[i + 1..] ensures e.0 != t[i].0 {
      var j :| 0 <= j < |t| - i - 1 && t[i + 1..][j] == e;
      assert t[i + 1 + j] == e;
    }
  }

  /** Unsetting a present key takes exactly its one entry out of the array. */
  lemma {:induction false} RemoveMultiset(t: seq<Entry>, k: Key, v: Value)
    requires DistinctKeys(t) && (k, v) in t
    ensures multiset(Remove(t, k)) + multiset{(k, v)} == multiset(t)
  {
    var i := IndexOfKey(t, k);
    LookupEntry(t, k, v);
    var pre, post := t[..i], t[i + 1..];
    assert t == pre + [(k, v)] + post;
    KeyNotElsewhere(t, i);
    RemoveSplit(pre, (k, v), post);
  }

  lemma {:induction false} RemoveSplit(pre: seq<Entry>, e: Entry, post: seq<Entry>)
    requires e.0 !in Keys(pre) && e.0 !in Keys(post)
    ensures Remove(pre + [e] + post, e.0) == pre + post
  {
    var k := e.0;
    var single: seq<Entry> := [e];
    calc {
      Remove(pre + single + post, k);
      { RemoveConcat(pre + single, post, k); }
      Remove(pre + single, k) + Remove(post, k);
      { RemoveConcat(pre, single, k); }
      Remove(pre, k) + Remove(single, k) + Remove(post, k);
      { RemoveAbsent(pre, k); RemoveAbsent(post, k); }
      pre + Remove(single, k) + post;
      { RemoveSingle(e); }
      pre + post;
    }
  }

  lemma {:induction false} RemoveSingle(e: Entry)
    ensures Remove([e], e.0) == []
  {
    assert |Remove([e], e.0)| == 0;
  }

  /** PHP's keyed write `$t[$k] = $v`: an existing key keeps its position
      and gets the new value, a new key is added last, every other entry is
      left as it was. */
  function Assign(t: seq<Entry>, k: Key, v: Value): (r: seq<Entry>)
    ensures Keys(r) == Keys(t) + {k}
    ensures (k, v) in r
    ensures k in Keys(t) ==> |r| == |t| && r[IndexOfKey(t, k)] == (k, v)
                             && forall j :: 0 <= j < |t| && j != IndexOfKey(t, k) ==> r[j] == t[j]
    ensures k !in Keys(t) ==> r == t + [(k, v)]
    ensures DistinctKeys(t) ==> DistinctKeys(r) && forall e :: e in r <==> e == (k, v) || (e in t && e.0 != k)
  {
    var i := IndexOfKey(t, k);
    if i < |t| then
      var r := t[i := (k, v)];
      forall e | DistinctKeys(t) ensures e in r <==> e == (k, v) || (e in t && e.0 != k) {
        if e in t && e.0 != k {
          var j :| 0 <= j < |t| && t[j] == e;
          assert r[j] == e;
        }
        if e in r && e != (k, v) {
          var j :| 0 <= j < |r| && r[j] == e;
          assert j != i && t[j] == e;
          assert t[j].0 != t[i].0;
        }
        assert r[i] == (k, v);
      }
      assert r[i] == (k, v);
      assert Keys(r) == Keys(t) + {k} by {
        forall x | x in Keys(t) ensures x in Keys(r) {
          var e :| e in t && e.0 == x;
          var j :| 0 <= j < |t| && t[j] == e;
          assert r[j].0 == x;
        }
      }
      r
    else
      t + [(k, v)]
  }

  /** PHP's array union `$a + $b`: all of `a`, then the entries of `b`
      whose keys `a` does not have. */
  function Union(a: seq<Entry>, b: seq<Entry>): (r: seq<Entry>)
    ensures |a| <= |r| && r[..|a|] == a
    ensures forall e :: e in r <==> e in a || (e in b && e.0 !in Keys(a))
    ensures Keys(a) !! Keys(b) ==> r == a + b
    ensures IsSubseq(r[|a|..], b)
    ensures forall e :: e in r[|a|..] ==> e.0 !in Keys(a)
  {
    var rest := Filter(b, (e: Entry) => e.0 !in Keys(a));
    FilterSubseq(b, (e: Entry) => e.0 !in Keys(a));
    assert (a + rest)[|a|..] == rest;
    if Keys(a) !! Keys(b) then FilterKeepsAll(b, (e: Entry) => e.0 !in Keys(a)); a + rest
    else a + rest
  }

  /** The append counter after storing key `k`: PHP moves it one past any
      integer key at or above it, and never lowers it (so a negative key
      leaves a counter of 0 alone, as in PHP before 8.3). */
  function Bump(next: int, k: Key): (r: int)
    ensures r >= next
    ensures k.IntK? ==> k.i < r
    ensures r == next || (k.IntK? && r == k.i + 1)
  {
    if k.IntK? && k.i >= next then k.i + 1 else next
  }

  /** The append counter of an array built by inserting the entries of `t`
      in order into an empty array, whose counter starts at 0 (the rule of
      PHP before 8.3, where a negative key never moves the counter): 0, or
      one past the largest integer key. */
  function NextFree(t: seq<Entry>): (r: int)
    ensures r >= 0
    ensures forall e :: e in t && e.0.IntK? ==> e.0.i < r
    ensures r == 0 || IntK(r - 1) in Keys(t)
  {
    if t == [] then 0
    else
      var init := t[..|t| - 1];
      var r := Bump(NextFree(init), t[|t| - 1].0);
      assert t == init + [t[|t| - 1]];
      assert Keys(init) <= Keys(t);
      assert t[|t| - 1].0 in Keys(t);
      r
  }

  /** A list: the keys are 0, 1, 2, ... in order. */
  ghost predicate IsList(t: seq<Entry>) {
    forall i :: 0 <= i < |t| ==> t[i].0 == IntK(i)
  }

  /** Appending to a list of `n` values uses key `n` (key 3 for `[1, 2, 3]`). */
  lemma {:induction false} ListNextFree(t: seq<Entry>)
    requires IsList(t)
    ensures NextFree(t) == |t|
  {
    if t != [] {
      ListNextFree(t[..|t| - 1]);
    }
  }
}
