# MosaicArray in Dafny

A model of `Mobileka\MosaicArray\MosaicArray`, a PHP class that wraps one
PHP array (its *target*). The class offers lookups over the target, two
reordering operations (`sortByArrayKeys`, `sortByArrayValues`), key and
rule based filtering (`except`, `only`, `excludeByRule`), first-hit scans
(`find`, `hasIntersections`) and the `ArrayAccess` / `Countable` operations.
Of those, `offsetSet` and `offsetUnset` update the target in place;
`offsetGet`, `offsetExists` and `count` only read it.

Files:

- `php_arrays.dfy` (module `PhpArrays`): the part of PHP's value model the
  class relies on.
  - A PHP array is a sequence of `(Key, Value)` entries with pairwise
    distinct keys, in insertion order.
  - The PHP primitives the class calls: lookup, keyed write `$t[$k] = $v`,
    `unset`, the union operator `+`, filtering, truthiness, `in_array` and
    the append counter.
- `reorder.dfy` (module `Reorder`): what `sortByArrayKeys` and
  `sortByArrayValues` compute, as functions of the target, and the
  properties proved about them.
  - `sortByArrayKeys` gives a permutation of the target. The listed keys
    come first, ordered by their first listing, and the rest keep their
    order.
  - `sortByArrayValues` keeps exactly the matched keys, each holding the
    last listed value it equals. They are ordered by their first matching
    listed value, with ties in target order.
- `mosaic_array.dfy` (module `Mosaic`): the class `MosaicArray`, with
  fields `target` and `nextFree` (PHP's append counter).
  - The loop-based operations are methods whose loops are proved against
    the functions of `Reorder` and `PhpArrays`.
  - The mutators carry `modifies this` and state the whole new state.
- `scenarios.dfy` (module `Scenarios`): the repository's own test cases for
  `find`, `sortByArrayKeys`, `sortByArrayValues`, `excludeByRule`,
  `ArrayAccess` and `count`, stated on the model.
  - Most are proved through a lemma over arbitrary entries of the same shape;
    `FindNothingScenario` is proved directly from `find`'s contract.

Modelling choices:

- PHP's loose comparison `==` is a parameter `loose: (Value, Value) -> bool`.
  It is used by `in_array($x, $a, false)` and by `array_keys($t, $v)`.
  Strict `===` is Dafny's `==`.
- The closure given to `excludeByRule` is a function `(Key, Value) -> bool`.
- `$m[] = $v` appends under `nextFree`. Writing an integer key at or above
  the counter moves it to one past that key, and `unset` never lowers it.
  The counter follows PHP before 8.3: it starts at 0 and a negative key
  never moves it (PHP 8.3 continues after a negative first key).
  An array handed to the constructor or to `replaceTarget` starts with the
  counter that inserting its entries in order would give (`NextFree`).
- `toArray($key)` with a truthy key that is missing reads an undefined
  index. PHP 5 and 7 emit a notice there and PHP 8 a warning. None of them
  throws, and the expression yields null. The model returns
  `Fetch.UndefinedIndex` in that case, keeping it distinct from a stored
  `null`.
- PHP arrays are copy-on-write values. Returning `$this->target` therefore
  hands out a value, not an alias, and the model returns sequences.

## Model

| member | source | states |
|---|---|---|
| PhpArrays.FalsyValues | src/Mobileka/MosaicArray/MosaicArray.php:107 | a value is falsy exactly when it is null, `false`, `0`, `""`, `"0"` or the empty array; a nested array is truthy exactly when it has an entry, whatever that entry holds (shallow truthiness) |
| PhpArrays.FalsyKeys | src/Mobileka/MosaicArray/MosaicArray.php:62 | the key argument of `toArray` is falsy exactly when it is absent, `0`, `""` or `"0"` |
| PhpArrays.InArrayStrict | src/Mobileka/MosaicArray/MosaicArray.php:89 | strict `in_array` finds the needle exactly when some key stores that very value |
| PhpArrays.Lookup | src/Mobileka/MosaicArray/MosaicArray.php:62 | reading `$t[$k]` finds nothing exactly when `k` is not a key, and what it finds is an entry of `t` |
| PhpArrays.LookupEntry | src/Mobileka/MosaicArray/MosaicArray.php:62 | in a PHP array the value stored under a key is the one a lookup finds |
| PhpArrays.Filter | src/Mobileka/MosaicArray/MosaicArray.php:230-234 | keeping the entries a predicate accepts yields exactly those entries and is never longer |
| PhpArrays.FilterSubseq | src/Mobileka/MosaicArray/MosaicArray.php:230-234 | filtering keeps the surviving entries in their original order |
| PhpArrays.FilterDistinct | src/Mobileka/MosaicArray/MosaicArray.php:230-234 | a filtered PHP array still has distinct keys |
| PhpArrays.FilterSplit | src/Mobileka/MosaicArray/MosaicArray.php:153-167 | filtering by a predicate and by its negation splits the array's entries between the two results, each entry once |
| PhpArrays.Remove | src/Mobileka/MosaicArray/MosaicArray.php:284 | `unset($t[$k])` removes the entries under `k` and no other, keeps the order, and shortens a PHP array by one exactly when `k` was present |
| PhpArrays.RemoveAbsent | src/Mobileka/MosaicArray/MosaicArray.php:284 | unsetting a key that is absent leaves the array unchanged |
| PhpArrays.RemoveMultiset | src/Mobileka/MosaicArray/MosaicArray.php:284 | unsetting a present key takes out exactly its one entry |
| PhpArrays.RemoveSplit | src/Mobileka/MosaicArray/MosaicArray.php:284 | unsetting the key of an entry that is unique to it closes the gap: the entries before and after are joined |
| PhpArrays.Assign | src/Mobileka/MosaicArray/MosaicArray.php:261 | `$t[$k] = $v`: an existing key keeps its position and gets `v`, a new key goes last, every other entry is unchanged, and keys stay distinct |
| PhpArrays.Union | src/Mobileka/MosaicArray/MosaicArray.php:189 | `$a + $b` starts with all of `a`, then adds the entries of `b` whose keys `a` lacks, in `b`'s order and each once; with disjoint keys it is concatenation |
| PhpArrays.Bump | src/Mobileka/MosaicArray/MosaicArray.php:259-261 | storing a key never lowers the counter and leaves it above an integer key just stored; it either stays or becomes one past that key |
| PhpArrays.NextFree | src/Mobileka/MosaicArray/MosaicArray.php:259 | the append counter is above every integer key of the array and is either 0 or one past an integer key it holds, so it is 0 or one past the largest integer key |
| PhpArrays.ListNextFree | tests/MosaicArrayTest.php:364-371 | appending to a list of `n` values uses key `n` (key 3 after `[1, 2, 3]`) |
| PhpArrays.DistinctKeyCount | src/Mobileka/MosaicArray/MosaicArray.php:326 | the number of entries of a PHP array is the number of its keys |
| Reorder.Without | src/Mobileka/MosaicArray/MosaicArray.php:177-186 | the working copy after unsetting the listed keys holds exactly the target entries with unlisted keys, in target order |
| Reorder.WithoutNothing | src/Mobileka/MosaicArray/MosaicArray.php:177 | before the loop the working copy is the whole target |
| Reorder.WithoutSnoc | src/Mobileka/MosaicArray/MosaicArray.php:182-186 | walking one more listed key unsets it from the working copy |
| Reorder.PickedTakesKey | src/Mobileka/MosaicArray/MosaicArray.php:183-185 | a walked key still in the working copy is written into `$ordered` with its value |
| Reorder.PickedShape | src/Mobileka/MosaicArray/MosaicArray.php:180-187 | `$ordered` holds, once each, the listed keys the target has, with their target values, ordered by first listing; with the working copy it holds every target entry exactly once |
| Reorder.SortByKeysPermutation | src/Mobileka/MosaicArray/MosaicArray.php:175-193 | the reference result `SortedByKeys` is a permutation of the target: the same entries, each once, same count, distinct keys |
| Reorder.SortByKeysOrder | src/Mobileka/MosaicArray/MosaicArray.php:179-190 | with a non-empty order `SortedByKeys` is the listed present keys, by first listing, followed by the unlisted entries in target order |
| Reorder.Matching | src/Mobileka/MosaicArray/MosaicArray.php:210 | `array_keys($t, $w)` returns exactly the keys whose value equals `w` |
| Reorder.MatchingOrder | src/Mobileka/MosaicArray/MosaicArray.php:210 | the keys `array_keys` returns follow the target's order |
| Reorder.MatchingLookup | src/Mobileka/MosaicArray/MosaicArray.php:210 | in a PHP array a key is returned exactly when the value stored under it matches |
| Reorder.AssignAll | src/Mobileka/MosaicArray/MosaicArray.php:211-213 | writing `v` under every listed key adds those keys, overwrites their values with `v`, leaves other entries alone and keeps keys distinct |
| Reorder.AssignAllSorted | src/Mobileka/MosaicArray/MosaicArray.php:211-213 | writing keys keeps an ordering when every new key sorts after the old ones and the new keys come in order |
| Reorder.LastMatchSnoc | src/Mobileka/MosaicArray/MosaicArray.php:209-213 | a later listed value that a target value equals overwrites the one stored before |
| Reorder.FirstMatchSnoc | src/Mobileka/MosaicArray/MosaicArray.php:209-213 | the first listed value a target value equals is fixed once found; a later listed value only sets it when none matched before |
| Reorder.ByValuesShape | src/Mobileka/MosaicArray/MosaicArray.php:207-215 | after any prefix of the listed values, `$result` holds one entry per matched target key, storing the last listed value it equals, ordered by first match and then target order |
| Reorder.SortByValuesResult | src/Mobileka/MosaicArray/MosaicArray.php:201-218 | with a non-empty order the reference result `SortedByValues` has distinct keys; a key is present exactly when its target value equals some listed value; its value is the last such listed value; order by first match, ties in target order; never longer than the target |
| Reorder.SortByValuesStrict | src/Mobileka/MosaicArray/MosaicArray.php:201-218 | under strict comparison `SortedByValues` is exactly the target entries whose value is listed, unchanged, grouped in the order their values are first listed, ties in target order |
| Mosaic.MosaicArray.constructor | src/Mobileka/MosaicArray/MosaicArray.php:36-39 | the target is the given array, and the object is valid |
| Mosaic.MosaicArray.Make | src/Mobileka/MosaicArray/MosaicArray.php:26-29 | the static constructor gives a new valid object whose target is the given array |
| Mosaic.MosaicArray.ReplaceTarget | src/Mobileka/MosaicArray/MosaicArray.php:47-52 | the target becomes the given array and the same object is returned |
| Mosaic.MosaicArray.ToArray | src/Mobileka/MosaicArray/MosaicArray.php:60-63 | a falsy key (null, 0, "", "0") gives the whole target; a truthy key gives the value stored under it, and an undefined index exactly when it is absent |
| Mosaic.MosaicArray.GetItem | src/Mobileka/MosaicArray/MosaicArray.php:73-76 | the stored value when the key is present with a non-null value, otherwise the default |
| Mosaic.MosaicArray.HasIntersections | src/Mobileka/MosaicArray/MosaicArray.php:86-95 | `false` when no target value is in the given array; otherwise the first such value in target order, or `true` when the value is not asked for |
| Mosaic.MosaicArray.Find | src/Mobileka/MosaicArray/MosaicArray.php:104-113 | the first truthy value in target order, or the default when no value is truthy |
| Mosaic.MosaicArray.Except | src/Mobileka/MosaicArray/MosaicArray.php:153-156 | an empty list gives the target; otherwise exactly the entries with unlisted keys, in target order, keys distinct |
| Mosaic.MosaicArray.Only | src/Mobileka/MosaicArray/MosaicArray.php:164-167 | an empty list gives the empty array; otherwise exactly the entries with listed keys, in target order rather than list order |
| Mosaic.OnlyExceptSplit | src/Mobileka/MosaicArray/MosaicArray.php:153-167 | for every key list, including the empty one, `only` and `except` split the target's entries between them, each entry once (an empty list gives `only` nothing and `except` everything) |
| Mosaic.MosaicArray.SortByArrayKeys | src/Mobileka/MosaicArray/MosaicArray.php:175-193 | the loop computes `SortedByKeys`: the target itself for an empty order, otherwise a permutation of it with distinct keys |
| Mosaic.MosaicArray.SortByArrayValues | src/Mobileka/MosaicArray/MosaicArray.php:201-218 | the nested loops compute `SortedByValues`: the target for an empty order, otherwise an array with distinct keys no longer than the target |
| Mosaic.MosaicArray.ExcludeByRule | src/Mobileka/MosaicArray/MosaicArray.php:226-237 | the loop that unsets from a copy computes the in-order filter by the negated rule |
| Mosaic.Excluded | src/Mobileka/MosaicArray/MosaicArray.php:226-237 | the filter by `KeptBy(rule)`, which keeps an entry when the rule at line 231 is false, holds exactly the entries the rule rejects, in target order with their keys, keys distinct; a rule rejecting every entry gives the target |
| Mosaic.ExcludeOneKey | src/Mobileka/MosaicArray/MosaicArray.php:230-233 | a rule accepting exactly one key excludes what `unset` of that key removes |
| Mosaic.ExcludeDropStep | src/Mobileka/MosaicArray/MosaicArray.php:231-233 | unsetting the walked key from the copy drops that one entry and leaves the unwalked rest in place |
| Mosaic.ExcludeKeepStep | src/Mobileka/MosaicArray/MosaicArray.php:230-231 | a walked entry the rule rejects stays where it is |
| Mosaic.MosaicArray.OffsetSet | src/Mobileka/MosaicArray/MosaicArray.php:256-263 | a null offset appends under the append counter and advances it; any other offset writes as `$t[$k] = $v`; afterwards the written key holds the value |
| Mosaic.MosaicArray.OffsetExists | src/Mobileka/MosaicArray/MosaicArray.php:271-274 | true exactly when `offsetGet` of the key is not null, that is, exactly when the key is present with a non-null value |
| Mosaic.MosaicArray.OffsetUnset | src/Mobileka/MosaicArray/MosaicArray.php:282-285 | the key's entry goes, the rest keep their order, the counter stays, and the count drops by one exactly when the key was present |
| Mosaic.MosaicArray.OffsetGet | src/Mobileka/MosaicArray/MosaicArray.php:293-296 | the stored value under the key (null stays null), and null when the key is absent |
| Mosaic.MosaicArray.Count | src/Mobileka/MosaicArray/MosaicArray.php:324-327 | the number of keys of the target |
| Scenarios.SortByKeysScenario | tests/MosaicArrayTest.php:250-263 | `['second' => '2', 'first' => '1', 'last']` sorted by keys `[0, 'second', 'first']` is `['last', 'second' => '2', 'first' => '1']`; an empty order returns it unchanged |
| Scenarios.SortByKeysRotate | tests/MosaicArrayTest.php:250-258 | listing the keys of any three-entry array as last, first, second moves the last entry to the front |
| Scenarios.SortByValuesScenario | tests/MosaicArrayTest.php:268-281 | the same fixture sorted by values `['last', '2', '1']` is `['last', 'second' => '2', 'first' => '1']`; an empty order returns it unchanged |
| Scenarios.SortByValuesRotate | tests/MosaicArrayTest.php:268-276 | under strict comparison (`===`), listing the distinct values of any three-entry array as last, first, second moves the last entry to the front |
| Scenarios.ExcludeByKeyScenario | tests/MosaicArrayTest.php:288-293 | excluding by `$key === 'key'` on `['key' => 'value', 1, 2, 3, 'numbers' => [1, 2, 3]]` gives `[1, 2, 3, 'numbers' => [1, 2, 3]]` |
| Scenarios.FindNothingScenario | tests/MosaicArrayTest.php:130-135 | `find` on `[0, false, '', null]` gives null, or `false` when that is the default |
| Scenarios.FindNestedScenario | tests/MosaicArrayTest.php:145-152 | `find` on `[null, false, 'Mosaic Soft' => []]` gives null, and on `[null, false, 'Mosaic Soft' => ['test' => ['hoo!']]]` the nested array |
| Scenarios.FindAfterNullFalse | tests/MosaicArrayTest.php:145-152 | `find()` on `[null, false, 'Mosaic Soft' => x]` gives `x` exactly when `x` is truthy and null otherwise, for every value `x` |
| Scenarios.ArrayAccessScenario | tests/MosaicArrayTest.php:364-375 | on `[1, 2, 3]`, `$m[1]` is 2, `$m[] = 4` stores 4 under key 3, and `$m[4] = 5` makes `isset($m[4])` hold |
| Scenarios.CountScenario | tests/MosaicArrayTest.php:349-394 | `count` of `[1, 2, 3]` is 3, and 2 after `unset($m[0])` |

## Left out

- `pregKeys` and `pregValues`: their work is done by PCRE through `preg_grep`, a regex engine outside this model.
- `serialize`, `unserialize` and `getIterator`: they hand the target to PHP's built-in serializer and `ArrayIterator`. Iteration is the target's own order, which the sequence already is.
- PHP's loose `==` coercion rules: loose comparison is a parameter, so every property holds for whatever comparison PHP applies.
- Key canonicalisation: PHP turns numeric strings such as `"5"` into integer keys and turns float keys into integers by truncation, `true`/`false` keys into 1/0 and a null key into `""`; an array or object offset to `offsetSet`, `getItem` or `toArray` raises "Illegal offset type". Keys here are already canonical integers or strings, so `Key` cannot express that error.
- Float, object and resource values.
- Integer width: the append counter is an unbounded integer. In PHP the counter stops at `PHP_INT_MAX`, and an append fails once the key `PHP_INT_MAX` is taken.
- The append counter of an array handed to the constructor or to `replaceTarget` is recomputed from its keys. Its own history of deleted keys is not tracked.
- Side effects of the `excludeByRule` closure: the rule is a pure function.
- Mosaic.MosaicArray.ExcludeByRule: its contract is the connection to the filter by the negated rule. The properties of that filter (exactly the rejected entries, in order, distinct keys, everything when nothing is accepted) are stated once, in `Mosaic.Excluded`.
- Mosaic.MosaicArray.SortByArrayValues: its contract is the connection to `SortedByValues`. The full description of that array is stated once, in `Reorder.SortByValuesResult`.
- Mosaic.MosaicArray.GetItem, OffsetGet, ToArray: these require the class invariant, that the target has distinct keys. Every PHP array has it.
- Scenarios.SortByValuesScenario: it uses strict comparison. PHP's default `==` agrees with it on the fixture's values (`'last'`, `'2'`, `'1'`, none equal to another).
