/** `removeItemsByKeyNested`, `removeItemsByKeyListNested` and
    `removeItemsByValueNested` of analysisScript/util.py: build a new two-level
    dictionary with the same outer keys, each inner dictionary filtered by a
    per-entry test, after rejecting an empty dictionary or an empty filter
    argument. */
module NestedRemove {
  import opened PyValues

  /** A two-level dictionary: outer key -> (inner key -> value). */
  type Nested = map<Key, map<Key, Value>>

  /** Which of the three helpers is meant. */
  datatype Remover = ByKey | ByKeyList | ByValue

  /** The exit message for a missing dictionary. The value helper reuses the
      key helper's name in its messages. */
  function DictMissing(f: Remover): string {
    match f
    case ByKeyList => "ERROR: removeItemsByKeyListNested: dictionary argument must be specified."
    case _ => "ERROR: removeItemsByKeyNested: dictionary argument must be specified."
  }

  /** The exit message for a missing key, key list or value argument. */
  function ArgMissing(f: Remover): string {
    match f
    case ByKey => "ERROR: removeItemsByKeyNested: key or list of keys to remove must be specified as an argument."
    case ByKeyList => "ERROR: removeItemsByKeyListNested: list of keys to remove must be specified as an argument."
    case ByValue => "ERROR: removeItemsByKeyNested: value or list of values to remove must be specified as an argument."
  }

  /** The comprehension's test for inner key `ki`, as written: the key list
      helper keeps `ki not in arg`; the key helper and the value helper both
      keep `ki not in arg or ki != arg`, which looks at the key only. The `in`
      can raise TypeError. */
  function KeepEntry(f: Remover, ki: Key, arg: Value): (r: Result<bool>)
    ensures r.Err? <==> Contains(arg, ki).Err?
    ensures r.Err? ==> r.error == TypeError
  {
    match Contains(arg, ki)
    case Err(e) => Err(e)
    case Ok(isIn) => if f == ByKeyList then Ok(!isIn) else Ok(!isIn || AsValue(ki) != arg)
  }

  /** Some entry of `inner` makes the test raise. */
  predicate InnerRaises(f: Remover, inner: map<Key, Value>, arg: Value) {
    exists ki | ki in inner :: KeepEntry(f, ki, arg).Err?
  }

  /** The inner comprehension: the entries of `inner` whose test is true. */
  function FilterInner(f: Remover, inner: map<Key, Value>, arg: Value): (r: Result<map<Key, Value>>)
    ensures r.Err? <==> InnerRaises(f, inner, arg)
    ensures r.Err? ==> r.error == TypeError
    ensures r.Ok? ==> r.value.Keys <= inner.Keys
  {
    if InnerRaises(f, inner, arg) then Err(TypeError)
    else Ok(map ki | ki in inner && KeepEntry(f, ki, arg) == Ok(true) :: inner[ki])
  }

  /** Some inner dictionary of `d` makes its comprehension raise. */
  predicate AnyRaises(f: Remover, d: Nested, arg: Value) {
    exists ko | ko in d :: InnerRaises(f, d[ko], arg)
  }

  /** The loop over `d.items()` after the guards: every outer key gets its
      filtered inner dictionary, unless some comprehension raises. */
  function Filtered(f: Remover, d: Nested, arg: Value): Result<Nested> {
    if AnyRaises(f, d, arg) then Err(TypeError)
    else Ok(map ko | ko in d :: FilterInner(f, d[ko], arg).value)
  }

  /** What each helper returns or raises, as a function of its arguments. */
  function Remove(f: Remover, d: Nested, arg: Value): Result<Nested> {
    if d == map[] then Err(SystemExit(DictMissing(f)))
    else if !Truthy(arg) then Err(SystemExit(ArgMissing(f)))
    else Filtered(f, d, arg)
  }

  /** The shared loop: start from an empty `dnew` and assign `dnew[ko]` for
      each outer key in turn. The input is never changed. */
  method Rebuild(f: Remover, d: Nested, arg: Value) returns (r: Result<Nested>)
    ensures r == Filtered(f, d, arg)
  {
    var dnew: Nested := map[];
    var rest := d.Keys;
    while rest != {}
      invariant rest <= d.Keys
      invariant dnew.Keys == d.Keys - rest
      invariant forall ko | ko in dnew :: FilterInner(f, d[ko], arg) == Ok(dnew[ko])
      decreases rest
    {
      var ko :| ko in rest;
      var inner := FilterInner(f, d[ko], arg);
      if inner.Err? {
        return Err(inner.error);
      }
      dnew := dnew[ko := inner.value];
      rest := rest - {ko};
    }
    assert !AnyRaises(f, d, arg);
    assert dnew == map ko | ko in d :: FilterInner(f, d[ko], arg).value;
    r := Ok(dnew);
  }

  /** removeItemsByKeyNested(d, k). */
  method RemoveItemsByKeyNested(d: Nested, k: Value) returns (r: Result<Nested>)
    ensures r == Remove(ByKey, d, k)
  {
    if d == map[] {
      return Err(SystemExit(DictMissing(ByKey)));
    }
    if !Truthy(k) {
      return Err(SystemExit(ArgMissing(ByKey)));
    }
    r := Rebuild(ByKey, d, k);
  }

  /** removeItemsByKeyListNested(d, k). */
  method RemoveItemsByKeyListNested(d: Nested, k: Value) returns (r: Result<Nested>)
    ensures r == Remove(ByKeyList, d, k)
  {
    if d == map[] {
      return Err(SystemExit(DictMissing(ByKeyList)));
    }
    if !Truthy(k) {
      return Err(SystemExit(ArgMissing(ByKeyList)));
    }
    r := Rebuild(ByKeyList, d, k);
  }

  /** removeItemsByValueNested(d, v). */
  method RemoveItemsByValueNested(d: Nested, v: Value) returns (r: Result<Nested>)
    ensures r == Remove(ByValue, d, v)
  {
    if d == map[] {
      return Err(SystemExit(DictMissing(ByValue)));
    }
    if !Truthy(v) {
      return Err(SystemExit(ArgMissing(ByValue)));
    }
    r := Rebuild(ByValue, d, v);
  }

  // ---------------------------------------------------------------------------
  // Properties of the three helpers

  /** Each helper fails exactly when the dictionary is empty, the argument is
      falsy, or some inner key cannot be tested against the argument; the
      first two halt with the helper's exit message, the last is a TypeError. */
  lemma RemoveFails(f: Remover, d: Nested, arg: Value)
    ensures Remove(f, d, arg).Err? <==>
      d == map[] || !Truthy(arg) || exists ko, ki | ko in d && ki in d[ko] :: Contains(arg, ki).Err?
    ensures d == map[] ==> Remove(f, d, arg) == Err(SystemExit(DictMissing(f)))
    ensures d != map[] && !Truthy(arg) ==> Remove(f, d, arg) == Err(SystemExit(ArgMissing(f)))
    ensures d != map[] && Truthy(arg) && Remove(f, d, arg).Err? ==> Remove(f, d, arg).error == TypeError
  {
  }

  /** On success every outer key is kept, each inner dictionary is a part of
      the input's with its values unchanged, and an inner entry is kept
      exactly when the helper's test is true of its key. */
  lemma RemoveKeepsShape(f: Remover, d: Nested, arg: Value, r: Nested)
    requires Remove(f, d, arg) == Ok(r)
    ensures r.Keys == d.Keys
    ensures forall ko | ko in r :: r[ko].Keys <= d[ko].Keys
    ensures forall ko, ki | ko in r && ki in r[ko] :: r[ko][ki] == d[ko][ki]
    ensures forall ko, ki | ko in d && ki in d[ko] :: ki in r[ko] <==> KeepEntry(f, ki, arg) == Ok(true)
  {
  }

  /** The key list helper removes exactly the listed keys: with a list
      argument each inner dictionary becomes the input's restricted to the
      keys not in the list, and outer keys whose inner dictionary empties
      stay. */
  lemma KeyListRemovesListed(d: Nested, keys: seq<Value>)
    requires d != map[] && keys != []
    ensures Remove(ByKeyList, d, List(keys))
      == Ok(map ko | ko in d :: map ki | ki in d[ko] && AsValue(ki) !in keys :: d[ko][ki])
  {
    var arg := List(keys);
    assert !AnyRaises(ByKeyList, d, arg);
    var r := Filtered(ByKeyList, d, arg).value;
    var want := map ko | ko in d :: map ki | ki in d[ko] && AsValue(ki) !in keys :: d[ko][ki];
    forall ko | ko in d
      ensures r[ko] == want[ko]
    {
    }
    assert r == want;
  }

  /** The key helper drops an entry only when its key equals the argument
      itself, which can only happen for a string argument (an `int` argument
      raises, a list or dictionary argument equals no key). */
  lemma KeyDropsOnlyEqualKey(ki: Key, arg: Value)
    ensures KeepEntry(ByKey, ki, arg) == Ok(false) <==> arg.Str? && AsValue(ki) == arg
  {
    if arg.Str? && AsValue(ki) == arg {
      SubstringOfItself(arg.s);
    }
  }

  /** With a string argument and string inner keys, the key helper removes
      that one key from every inner dictionary. */
  lemma KeyStringRemovesThatKey(d: Nested, s: string)
    requires d != map[] && s != ""
    requires forall ko, ki | ko in d && ki in d[ko] :: ki.KStr?
    ensures Remove(ByKey, d, Str(s)) == Ok(map ko | ko in d :: d[ko] - {KStr(s)})
  {
    var arg := Str(s);
    forall ko, ki | ko in d && ki in d[ko]
      ensures KeepEntry(ByKey, ki, arg) == Ok(ki != KStr(s))
    {
      KeyDropsOnlyEqualKey(ki, arg);
    }
    assert !AnyRaises(ByKey, d, arg);
    var r := Filtered(ByKey, d, arg).value;
    var want := map ko | ko in d :: d[ko] - {KStr(s)};
    forall ko | ko in d
      ensures r[ko] == want[ko]
    {
    }
    assert r == want;
  }

  /** With a list or dictionary argument, the key helper returns its input
      unchanged: every key that is `in` the argument still differs from it. */
  lemma KeyContainerRemovesNothing(d: Nested, arg: Value)
    requires d != map[] && Truthy(arg) && (arg.List? || arg.Dict?)
    ensures Remove(ByKey, d, arg) == Ok(d)
  {
    assert !AnyRaises(ByKey, d, arg);
    var r := Filtered(ByKey, d, arg).value;
    forall ko | ko in d
      ensures r[ko] == d[ko]
    {
      forall ki | ki in d[ko]
        ensures KeepEntry(ByKey, ki, arg) == Ok(true)
      {
        KeyDropsOnlyEqualKey(ki, arg);
      }
    }
    assert r == d;
  }

  /** With a non-zero number as argument, the key helper raises TypeError as
      soon as some inner dictionary is non-empty: `ki in k` is undefined for a
      number `k`. */
  lemma KeyNumberRaises(d: Nested, n: int)
    requires n != 0
    requires exists ko | ko in d :: d[ko] != map[]
    ensures Remove(ByKey, d, Int(n)) == Err(TypeError)
  {
  }

  /** The value helper runs the key helper's test: past the guards (whose
      messages differ) the two return the same. */
  lemma ValueIsKey(d: Nested, v: Value)
    ensures Remove(ByValue, d, v).Err? <==> Remove(ByKey, d, v).Err?
    ensures d != map[] && Truthy(v) ==> Remove(ByValue, d, v) == Remove(ByKey, d, v)
  {
    if d != map[] && Truthy(v) {
      forall ko, ki | ko in d && ki in d[ko]
        ensures KeepEntry(ByValue, ki, v) == KeepEntry(ByKey, ki, v)
      {
      }
      assert AnyRaises(ByValue, d, v) == AnyRaises(ByKey, d, v);
      if !AnyRaises(ByKey, d, v) {
        var a := Filtered(ByValue, d, v).value;
        var b := Filtered(ByKey, d, v).value;
        forall ko | ko in d
          ensures a[ko] == b[ko]
        {
        }
        assert a == b;
      }
    }
  }

  /** The value helper never looks at the values: two dictionaries with the
      same outer keys and the same inner keys succeed or fail together and keep
      the same inner keys. */
  lemma ValueIgnoresValues(d: Nested, e: Nested, v: Value)
    requires d.Keys == e.Keys
    requires forall ko | ko in d :: d[ko].Keys == e[ko].Keys
    ensures Remove(ByValue, d, v).Err? <==> Remove(ByValue, e, v).Err?
    ensures Remove(ByValue, d, v).Ok? ==>
      forall ko | ko in d :: Remove(ByValue, d, v).value[ko].Keys == Remove(ByValue, e, v).value[ko].Keys
  {
  }

  /** Filtering an inner dictionary a second time with the same test keeps it. */
  lemma FilterInnerIdempotent(f: Remover, inner: map<Key, Value>, arg: Value, out: map<Key, Value>)
    requires FilterInner(f, inner, arg) == Ok(out)
    ensures FilterInner(f, out, arg) == Ok(out)
  {
    assert !InnerRaises(f, out, arg) by {
      forall ki | ki in out
        ensures KeepEntry(f, ki, arg).Ok?
      {
        assert ki in inner;
      }
    }
    var again := FilterInner(f, out, arg).value;
    assert again == out;
  }

  /** `Filtered` succeeds with `r` exactly when `r` has the outer keys of `d`
      and each of its inner dictionaries is the comprehension over `d`'s. */
  lemma FilteredByParts(f: Remover, d: Nested, arg: Value, r: Nested)
    ensures Filtered(f, d, arg) == Ok(r) <==>
      r.Keys == d.Keys && forall ko | ko in d :: FilterInner(f, d[ko], arg) == Ok(r[ko])
  {
    if r.Keys == d.Keys && forall ko | ko in d :: FilterInner(f, d[ko], arg) == Ok(r[ko]) {
      assert !AnyRaises(f, d, arg);
      assert Filtered(f, d, arg).value == r;
    }
  }

  /** Applying a helper to its own result with the same argument changes
      nothing. */
  lemma RemoveIdempotent(f: Remover, d: Nested, arg: Value, r: Nested)
    requires Remove(f, d, arg) == Ok(r)
    ensures Remove(f, r, arg) == Ok(r)
  {
    FilteredByParts(f, d, arg, r);
    forall ko | ko in r
      ensures FilterInner(f, r[ko], arg) == Ok(r[ko])
    {
      FilterInnerIdempotent(f, d[ko], arg, r[ko]);
    }
    FilteredByParts(f, r, arg, r);
    var ko0 :| ko0 in d;
    assert ko0 in r;
  }

  // ---------------------------------------------------------------------------
  // The helpers as documented, beside the code as written

  /** `x` matches the filter argument: it equals the argument, or the argument
      is a list holding it. */
  predicate Matches(x: Value, arg: Value) {
    x == arg || (arg.List? && x in arg.items)
  }

  /** The helpers as their documentation describes them, with the same guards:
      the key helper omits entries whose key matches the argument, the value
      helper omits entries whose value matches it, and neither raises. The key
      list helper needs no correction and stays as written. */
  function IntendedRemove(f: Remover, d: Nested, arg: Value): Result<Nested> {
    if f == ByKeyList then Remove(ByKeyList, d, arg)
    else if d == map[] then Err(SystemExit(DictMissing(f)))
    else if !Truthy(arg) then Err(SystemExit(ArgMissing(f)))
    else Ok(map ko | ko in d ::
      map ki | ki in d[ko] && !Matches(if f == ByValue then d[ko][ki] else AsValue(ki), arg) :: d[ko][ki])
  }

  /** Documented key helper, list argument: it agrees with the key list helper
      as written, so it omits exactly the listed keys. */
  lemma IntendedKeyAgreesWithKeyList(d: Nested, keys: seq<Value>)
    requires d != map[] && keys != []
    ensures IntendedRemove(ByKey, d, List(keys)) == Remove(ByKeyList, d, List(keys))
  {
    KeyListRemovesListed(d, keys);
    var a := IntendedRemove(ByKey, d, List(keys)).value;
    var b := Remove(ByKeyList, d, List(keys)).value;
    forall ko | ko in d
      ensures a[ko] == b[ko]
    {
    }
    assert a == b;
  }

  /** Documented key helper, single number: it omits that key everywhere and
      does not raise. */
  lemma IntendedKeyNumber(d: Nested, n: int)
    requires d != map[] && n != 0
    ensures IntendedRemove(ByKey, d, Int(n)) == Ok(map ko | ko in d :: d[ko] - {KInt(n)})
  {
    var a := IntendedRemove(ByKey, d, Int(n)).value;
    var want := map ko | ko in d :: d[ko] - {KInt(n)};
    forall ko | ko in d
      ensures a[ko] == want[ko]
    {
    }
    assert a == want;
  }

  /** Documented key helper, single string: where every inner key is a string
      it is the key helper as written. */
  lemma IntendedKeyStringAgrees(d: Nested, s: string)
    requires d != map[] && s != ""
    requires forall ko, ki | ko in d && ki in d[ko] :: ki.KStr?
    ensures IntendedRemove(ByKey, d, Str(s)) == Remove(ByKey, d, Str(s))
  {
    KeyStringRemovesThatKey(d, s);
    var a := IntendedRemove(ByKey, d, Str(s)).value;
    var want := map ko | ko in d :: d[ko] - {KStr(s)};
    forall ko | ko in d
      ensures a[ko] == want[ko]
    {
    }
    assert a == want;
  }

  /** Documented value helper: an entry survives exactly when its value does
      not match the argument, and surviving values are unchanged. */
  lemma IntendedValueOmitsMatching(d: Nested, v: Value, r: Nested)
    requires IntendedRemove(ByValue, d, v) == Ok(r)
    ensures r.Keys == d.Keys
    ensures forall ko, ki | ko in d && ki in d[ko] :: ki in r[ko] <==> !Matches(d[ko][ki], v)
    ensures forall ko, ki | ko in r && ki in r[ko] :: r[ko][ki] == d[ko][ki]
  {
  }

  /** `{'o': {'a': 1}}` with the key list `['a']`: the key helper as written
      returns its input, the documented one empties the inner dictionary. */
  lemma KeyListArgumentExample()
    ensures Remove(ByKey, map[KStr("o") := map[KStr("a") := Int(1)]], List([Str("a")]))
      == Ok(map[KStr("o") := map[KStr("a") := Int(1)]])
    ensures IntendedRemove(ByKey, map[KStr("o") := map[KStr("a") := Int(1)]], List([Str("a")]))
      == Ok(map[KStr("o") := map[]])
  {
    var d := map[KStr("o") := map[KStr("a") := Int(1)]];
    assert KStr("o") in d;
    KeyContainerRemovesNothing(d, List([Str("a")]));
    IntendedKeyAgreesWithKeyList(d, [Str("a")]);
    KeyListRemovesListed(d, [Str("a")]);
    var r := IntendedRemove(ByKey, d, List([Str("a")])).value;
    assert r[KStr("o")] == map[];
    assert r == map[KStr("o") := map[]];
  }

  /** `{'o': {1: 'x'}}` with the key `1`: the key helper as written raises
      TypeError, the documented one omits key 1. */
  lemma KeyNumberExample()
    ensures Remove(ByKey, map[KStr("o") := map[KInt(1) := Str("x")]], Int(1)) == Err(TypeError)
    ensures IntendedRemove(ByKey, map[KStr("o") := map[KInt(1) := Str("x")]], Int(1))
      == Ok(map[KStr("o") := map[]])
  {
    var d := map[KStr("o") := map[KInt(1) := Str("x")]];
    assert KInt(1) in d[KStr("o")];
    KeyNumberRaises(d, 1);
    IntendedKeyNumber(d, 1);
    assert d[KStr("o")] - {KInt(1)} == map[];
    assert (map ko | ko in d :: d[ko] - {KInt(1)}) == map[KStr("o") := map[]];
  }

  /** `{'o': {'a': 1}}` with the values `[1]`: the value helper as written
      returns its input, the documented one omits the entry holding 1. */
  lemma ValueListExample()
    ensures Remove(ByValue, map[KStr("o") := map[KStr("a") := Int(1)]], List([Int(1)]))
      == Ok(map[KStr("o") := map[KStr("a") := Int(1)]])
    ensures IntendedRemove(ByValue, map[KStr("o") := map[KStr("a") := Int(1)]], List([Int(1)]))
      == Ok(map[KStr("o") := map[]])
  {
    var d := map[KStr("o") := map[KStr("a") := Int(1)]];
    assert KStr("o") in d;
    ValueIsKey(d, List([Int(1)]));
    KeyContainerRemovesNothing(d, List([Int(1)]));
    var r := IntendedRemove(ByValue, d, List([Int(1)])).value;
    IntendedValueOmitsMatching(d, List([Int(1)]), r);
    assert Matches(Int(1), List([Int(1)]));
    assert r[KStr("o")] == map[];
    assert r == map[KStr("o") := map[]];
  }
}
