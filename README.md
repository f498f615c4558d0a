# Nested-dictionary helpers of the climate-analysis utility module

This project models the dictionary toolkit in `analysisScript/util.py`. The
analysis notebooks use it to read and prune two-level result dictionaries,
for example outer key = experiment and inner key = variable. There are four
operations:

- `getNested(data, *keys)` walks a tree of dictionaries one key per level. It
  returns the value found, or None.
- `removeItemsByKeyNested(d, k)`, `removeItemsByKeyListNested(d, k)` and
  `removeItemsByValueNested(d, v)` each build a new two-level dictionary. It
  has the same outer keys as `d`, and each inner dictionary is filtered by a
  per-entry test. Each first halts with a `SystemExit` message when `d` or the
  filter argument is empty.

The model is in three modules:

- `PyValues` (`python_values.dfy`) holds the part of Python's value model these
  functions touch. This covers keys, values, truthiness, `dict.get`, the `in`
  operator and the exceptions raised. `in` means list membership, dictionary-key
  membership or substring search. A number or None on the right of `in`, or a
  non-string on the left of a string, raises TypeError.
- `NestedLookup` (`get_nested.dfy`) holds `getNested`. It is a recursive
  function on the key sequence, as in the source.
- `NestedRemove` (`remove_nested.dfy`) holds the three remove functions. The
  outer `for ko, inner_dict in d.items()` loop is the method `Rebuild`, proved
  against the function `Filtered`. The inner dictionary comprehension is the
  map comprehension `FilterInner`. `Remove` gives what each helper returns or
  raises. The three methods `RemoveItemsBy…Nested` keep the source's guards and
  are proved equal to `Remove`. The lemmas state what `Remove` does.

The per-entry tests are modelled as the code writes them, not as the
docstrings describe them:

- `removeItemsByKeyNested` keeps `ki not in k or ki != k`.
- `removeItemsByValueNested` uses the same test, on the inner key.
- Only `removeItemsByKeyListNested` keeps exactly `ki not in k`.

Where the docstrings and the code disagree, the model follows the code. The
disagreements are listed under "## Findings", each beside a corrected
definition, `IntendedRemove`.

Dafny maps are values, so "the input is never changed" holds by construction.
Python's dictionary insertion order only affects printing, so the model
ignores it. An error raised inside a comprehension is always TypeError. So the
order in which the loop visits outer keys cannot change the outcome, and the
loop may take them in any order.

## Model

| member | source | states |
|---|---|---|
| `NestedLookup.GetNested` | analysisScript/util.py:60-78 | the only exception is AttributeError, raised when a truthy level is not a dictionary; a non-None value returned is stored strictly inside `data` |
| `NestedLookup.NothingToWalk` | analysisScript/util.py:74 | no keys, or a falsy `data` (None, an empty dictionary), gives None |
| `NestedLookup.FalsyFirstKey` | analysisScript/util.py:75-76 | a falsy first key (None, 0, False, "") gives None whatever `data` is |
| `NestedLookup.SingleKeyIsGet` | analysisScript/util.py:77-78 | with one truthy key on any dictionary the result is `data.get(k)`: the stored value, or None when absent |
| `NestedLookup.DescendsOneLevel` | analysisScript/util.py:77-78 | with two or more keys the walk continues from `data.get(k1)` with the remaining keys |
| `NestedLookup.NotADictRaises` | analysisScript/util.py:74-77 | a truthy key on a truthy level that is not a dictionary raises AttributeError |
| `NestedLookup.WalkComposes` | analysisScript/util.py:74-78 | a walk along `p + q` equals the walk along `p` continued along `q`, errors included |
| `NestedLookup.MissingKeyGivesNone` | analysisScript/util.py:77-78 | a truthy key missing at any level gives None, whatever keys follow |
| `NestedLookup.PresentKeyFound` | analysisScript/util.py:77-78 | a truthy key present in the dictionary reached along a path gives its stored value |
| `NestedLookup.FindsWhatWasStored` | analysisScript/util.py:74-78 | looking up the one-path dictionary `Singleton(keys, v)` along `keys` finds `v`, when every key on the path is truthy |
| `PyValues.Contains` | analysisScript/util.py:148 | `ki in k` raises TypeError exactly when `k` is a number or None, or a string tested with a non-string key; otherwise it is list membership, dictionary-key membership, or substring search for a string key in a string |
| `NestedRemove.KeepEntry` | analysisScript/util.py:124 | the comprehension test raises exactly when `ki in arg` raises, and then raises TypeError |
| `NestedRemove.FilterInner` | analysisScript/util.py:124 | the inner comprehension raises TypeError exactly when some entry's test raises; otherwise its keys are a subset of the input's |
| `NestedRemove.Rebuild` | analysisScript/util.py:122-125 | the loop that assigns `dnew[ko]` for each outer key returns exactly `Filtered`: every outer key mapped to its filtered inner dictionary, or TypeError |
| `NestedRemove.RemoveItemsByKeyNested` | analysisScript/util.py:103-125 | returns or raises exactly what `Remove(ByKey, d, k)` states |
| `NestedRemove.RemoveItemsByKeyListNested` | analysisScript/util.py:127-149 | returns or raises exactly what `Remove(ByKeyList, d, k)` states |
| `NestedRemove.RemoveItemsByValueNested` | analysisScript/util.py:153-175 | returns or raises exactly what `Remove(ByValue, d, v)` states |
| `NestedRemove.RemoveFails` | analysisScript/util.py:118-121 | a helper fails exactly when `d` is empty, the argument is falsy, or some inner key cannot be tested with `in`; an empty `d` halts with the helper's dictionary message, a falsy argument with its argument message, anything else is TypeError |
| `NestedRemove.RemoveKeepsShape` | analysisScript/util.py:122-125 | on success the outer keys are exactly the input's (inner dictionaries may become empty); each inner dictionary is a subset of the input's with unchanged values; an entry stays exactly when its test is true |
| `NestedRemove.KeyListRemovesListed` | analysisScript/util.py:146-149 | with a non-empty list, each inner dictionary becomes the input's restricted to the keys not in the list |
| `NestedRemove.KeyDropsOnlyEqualKey` | analysisScript/util.py:124 | the key helper's test drops an entry if and only if the argument is a string equal to the key |
| `NestedRemove.KeyStringRemovesThatKey` | analysisScript/util.py:124 | with a string key and string inner keys, the key helper removes exactly that key from every inner dictionary |
| `NestedRemove.KeyContainerRemovesNothing` | analysisScript/util.py:124 | with a non-empty list or dictionary argument, the key helper returns its input unchanged |
| `NestedRemove.KeyNumberRaises` | analysisScript/util.py:124 | with a non-zero number as key, the key helper raises TypeError whenever some inner dictionary is non-empty |
| `NestedRemove.ValueIsKey` | analysisScript/util.py:172-175 | the value helper fails exactly when the key helper does, and past the guards it returns the same |
| `NestedRemove.ValueIgnoresValues` | analysisScript/util.py:174 | two inputs with the same outer and inner keys, whatever their values, make the value helper succeed or fail together and keep the same inner keys |
| `NestedRemove.FilterInnerIdempotent` | analysisScript/util.py:148 | filtering an inner dictionary's comprehension result again with the same test returns it unchanged |
| `NestedRemove.RemoveIdempotent` | analysisScript/util.py:146-149 | applying a helper to its own result with the same argument returns that result |
| `NestedRemove.IntendedKeyAgreesWithKeyList` | analysisScript/util.py:103-116 | the documented key helper, given a list, equals the key list helper as written |
| `NestedRemove.IntendedKeyNumber` | analysisScript/util.py:111-112 | the documented key helper, given a number, removes that key from every inner dictionary and does not raise |
| `NestedRemove.IntendedKeyStringAgrees` | analysisScript/util.py:124 | the documented key helper, given a string key, equals the code as written wherever every inner key is a string |
| `NestedRemove.IntendedValueOmitsMatching` | analysisScript/util.py:153-167 | the documented value helper keeps an entry exactly when its value does not match the argument, with outer keys and values unchanged |
| `NestedRemove.KeyListArgumentExample` | analysisScript/util.py:124 | `{'o': {'a': 1}}` with `['a']`: as written returns the input, the documented helper empties the inner dictionary |
| `NestedRemove.KeyNumberExample` | analysisScript/util.py:124 | `{'o': {1: 'x'}}` with `1`: as written raises TypeError, the documented helper removes key 1 |
| `NestedRemove.ValueListExample` | analysisScript/util.py:174 | `{'o': {'a': 1}}` with `[1]`: as written returns the input, the documented helper removes the entry holding 1 |

## Findings

| source | as written | input that shows it | evidently intended | confidence | as-written member | corrected member |
|---|---|---|---|---|---|---|
| analysisScript/util.py:124 | `ki not in k or ki != k` keeps every key when `k` is a list | `removeItemsByKeyNested({'o': {'a': 1}}, ['a'])` returns `{'o': {'a': 1}}` | omit every inner key listed in `k`, as the docstring says | high; not executed | `NestedRemove.KeyListArgumentExample` | `NestedRemove.IntendedKeyAgreesWithKeyList` |
| analysisScript/util.py:124 | `ki not in k` raises TypeError for a numeric `k`, which the docstring allows (`k : float`) | `removeItemsByKeyNested({'o': {1: 'x'}}, 1)` raises TypeError | omit inner key `k` | high; not executed | `NestedRemove.KeyNumberExample` | `NestedRemove.IntendedKeyNumber` |
| analysisScript/util.py:174 | the value helper tests the inner key `ki` against `v`, never the value `val` | `removeItemsByValueNested({'o': {'a': 1}}, [1])` returns `{'o': {'a': 1}}` | omit entries whose value is `v` or is listed in `v` | high; not executed | `NestedRemove.ValueListExample` | `NestedRemove.IntendedValueOmitsMatching` |

`IntendedRemove` is the corrected definition. It keeps the source's guards and
exit messages. The key helper omits an entry whose key equals the argument or
is listed in it. The value helper does the same with the entry's value. The
key list helper needs no correction, so its case is the code as written.

## Left out

- `NestedLookup.Singleton` builds the one-path dictionary used by `FindsWhatWasStored`. The source has no such builder. It serves only to state the lookup's round trip.
- `analysisScript/mathutil.py` `globalAveAtmos`: a floating-point reduction built on numpy `cos`, `deg2rad` and `average`. It has no discrete logic to model.
- `systemExit` and `verifyPath` (analysisScript/util.py:18-27, 46-58): process exit, a filesystem existence check and a change to the global `sys.tracebacklimit`. Only the `SystemExit` outcome and its message are kept.
- `printDebug` and `getDictItemsNested` (analysisScript/util.py:30-43, 80-100): console printing only.
- `saveFig` and `writeStats` (analysisScript/util.py:179-210): file I/O.
- `setFigure` and `setPanel` (analysisScript/util.py:212-254): plotting-library calls and floating-point figure sizes.
- `compute_weighted_gmean` (analysisScript/util.py:257-277): it sits inside a string literal, so it is not executable code.
- Floats, tuples and other Python types are not modelled as keys or values. Python's `bool` is modelled as the integers 0 and 1, because `True == 1` as a dictionary key.
- An unhashable key passed to `getNested` raises TypeError in `dict.get`. The model's keys are hashable by construction, so this case is not modelled.
- The remove functions take `d` as a two-level map. A `d` of None is caught by the same `if not d` guard as `{}`, and the empty map stands for both. A non-dictionary `d` or inner value raises AttributeError in `.items()`. That case is outside the model's types.
- Halting the notebook cell, and suppressing the traceback, is modelled as the `Err(SystemExit(message))` result.
- A string argument to `removeItemsByKeyListNested` is tested with Python's substring `in`. This is modelled, but no lemma states its effect beyond `RemoveKeepsShape`.
