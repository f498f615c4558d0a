/** `getNested(data, *args)` of analysisScript/util.py: walk a tree of
    dictionaries one key per level. */
module NestedLookup {
  import opened PyValues

  /** The value reached from `data` by the keys in order, or None. The walk
      stops with None when no key is left to use, when the current level is
      falsy (None or an empty dictionary among others), or when the current
      key is falsy; a truthy level that is not a dictionary has no `get`, and
      Python raises AttributeError. A value found is one stored inside `data`. */
  function GetNested(data: Value, keys: seq<Key>): (r: Result<Value>)
    ensures r.Err? ==> r.error == AttributeError
    ensures r.Ok? && r.value != None ==> r.value < data
    decreases |keys|
  {
    if keys == [] || !Truthy(data) then Ok(None)
    else if !KeyTruthy(keys[0]) then Ok(None)
    else if !data.Dict? then Err(AttributeError)
    else
      var value := Get(data.entries, keys[0]);
      if |keys| == 1 then Ok(value) else GetNested(value, keys[1..])
  }

  /** Continue a walk that ended in `r` with the keys `rest`. */
  function Then(r: Result<Value>, rest: seq<Key>): Result<Value> {
    match r
    case Ok(v) => GetNested(v, rest)
    case Err(e) => Err(e)
  }

  /** No keys, or a falsy `data` (None, an empty dictionary), give None. */
  lemma NothingToWalk(data: Value, keys: seq<Key>)
    requires keys == [] || !Truthy(data)
    ensures GetNested(data, keys) == Ok(None)
  {
  }

  /** A falsy first key gives None whatever `data` is: `data` is not consulted. */
  lemma FalsyFirstKey(data: Value, data': Value, keys: seq<Key>)
    requires keys != [] && !KeyTruthy(keys[0])
    ensures GetNested(data, keys) == GetNested(data', keys) == Ok(None)
  {
  }

  /** With one truthy key, getNested on a dictionary is `dict.get`. */
  lemma SingleKeyIsGet(m: map<Key, Value>, k: Key)
    requires KeyTruthy(k)
    ensures k in m ==> GetNested(Dict(m), [k]) == Ok(m[k])
    ensures k !in m ==> GetNested(Dict(m), [k]) == Ok(None)
  {
  }

  /** With several keys, getNested descends into `data.get(first)` with the rest. */
  lemma DescendsOneLevel(m: map<Key, Value>, keys: seq<Key>)
    requires |keys| >= 2 && KeyTruthy(keys[0])
    ensures GetNested(Dict(m), keys) == GetNested(Get(m, keys[0]), keys[1..])
  {
  }

  /** A truthy key on a truthy level that is not a dictionary raises
      AttributeError: the level has no `get`. */
  lemma NotADictRaises(data: Value, keys: seq<Key>)
    requires keys != [] && Truthy(data) && KeyTruthy(keys[0]) && !data.Dict?
    ensures GetNested(data, keys) == Err(AttributeError)
  {
  }

  /** A walk along `p + q` is the walk along `p` continued along `q`. */
  lemma {:induction false} WalkComposes(data: Value, p: seq<Key>, q: seq<Key>)
    requires p != [] && q != []
    ensures GetNested(data, p + q) == Then(GetNested(data, p), q)
    decreases |p|
  {
    if !Truthy(data) || !KeyTruthy(p[0]) {
      NothingToWalk(None, q);
    } else if data.Dict? {
      var value := Get(data.entries, p[0]);
      assert (p + q)[0] == p[0];
      if |p| == 1 {
        assert (p + q)[1..] == q;
      } else {
        assert (p + q)[1..] == p[1..] + q;
        WalkComposes(value, p[1..], q);
      }
    }
  }

  /** A key missing at any level makes the whole walk give None, whatever
      keys follow it. */
  lemma MissingKeyGivesNone(data: Value, p: seq<Key>, m: map<Key, Value>, k: Key, q: seq<Key>)
    requires GetNested(data, p) == Ok(Dict(m))
    requires KeyTruthy(k) && k !in m
    ensures GetNested(data, p + [k] + q) == Ok(None)
  {
    assert p != [];
    WalkComposes(data, p, [k] + q);
    assert p + [k] + q == p + ([k] + q);
    if q != [] {
      assert ([k] + q)[1..] == q;
      NothingToWalk(None, q);
    }
  }

  /** A truthy key present in the dictionary reached along `p` gives its
      stored value. */
  lemma PresentKeyFound(data: Value, p: seq<Key>, m: map<Key, Value>, k: Key)
    requires GetNested(data, p) == Ok(Dict(m))
    requires KeyTruthy(k) && k in m
    ensures GetNested(data, p + [k]) == Ok(m[k])
  {
    assert p != [];
    WalkComposes(data, p, [k]);
  }

  /** The one-entry-per-level dictionary holding `v` at the path `keys`. */
  function Singleton(keys: seq<Key>, v: Value): (d: Value)
    ensures keys != [] ==> d.Dict? && |d.entries| == 1
  {
    if keys == [] then v else Dict(map[keys[0] := Singleton(keys[1..], v)])
  }

  /** Looking up along the path a value was stored under finds it again,
      provided every key on the path is truthy. */
  lemma {:induction false} FindsWhatWasStored(keys: seq<Key>, v: Value)
    requires keys != []
    requires forall i | 0 <= i < |keys| :: KeyTruthy(keys[i])
    ensures GetNested(Singleton(keys, v), keys) == Ok(v)
    decreases |keys|
  {
    if |keys| > 1 {
      assert forall i | 0 <= i < |keys| - 1 :: keys[1..][i] == keys[i + 1];
      FindsWhatWasStored(keys[1..], v);
    }
  }
}
