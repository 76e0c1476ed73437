/**
  Association lists keyed by strings: the model of a JavaScript object's own properties in
  insertion order. Reading a key gives its first binding; assignment keeps an existing key in
  place and appends a new one, as property assignment does.
*/
module Assoc {
  import opened Wrappers

  type Assoc<V> = seq<(string, V)>

  predicate Distinct(xs: seq<string>) {
    forall i, j :: 0 <= i < j < |xs| ==> xs[i] != xs[j]
  }

  /** The value bound to `key` (its first binding), or `None`. */
  function Lookup<V>(xs: Assoc<V>, key: string): (r: Option<V>)
    ensures r.Some? <==> exists i :: 0 <= i < |xs| && xs[i].0 == key
    ensures r.Some? ==> exists i :: 0 <= i < |xs| && xs[i] == (key, r.value)
  {
    if |xs| == 0 then None
    else if xs[0].0 == key then Some(xs[0].1)
    else
      var r := Lookup(xs[1..], key);
      assert forall i :: 0 < i < |xs| ==> xs[i] == xs[1..][i - 1];
      if r.Some? then
        assert exists i :: 0 <= i < |xs[1..]| && xs[1..][i] == (key, r.value);
        r
      else r
  }

  /** `obj[key] = v`: an existing key keeps its position, a new key goes last. */
  function Set<V>(xs: Assoc<V>, key: string, v: V): (r: Assoc<V>)
    ensures Lookup(r, key) == Some(v)
    ensures forall k :: k != key ==> Lookup(r, k) == Lookup(xs, k)
    ensures Lookup(xs, key).Some? ==> |r| == |xs|
    ensures Lookup(xs, key).None? ==> r == xs + [(key, v)]
  {
    if |xs| == 0 then [(key, v)]
    else
      assert xs == [xs[0]] + xs[1..];
      LookupConsEach(xs[0].0, xs[0].1, xs[1..]);
      if xs[0].0 == key then
        LookupConsEach(key, v, xs[1..]);
        [(key, v)] + xs[1..]
      else
        var rest := Set(xs[1..], key, v);
        LookupConsEach(xs[0].0, xs[0].1, rest);
        [xs[0]] + rest
  }

  /** `delete obj[key]`: every binding of `key` goes, the others keep their order. */
  function Delete<V>(xs: Assoc<V>, key: string): (r: Assoc<V>)
    ensures Lookup(r, key) == None
    ensures forall k :: k != key ==> Lookup(r, k) == Lookup(xs, k)
    ensures |r| <= |xs|
  {
    if |xs| == 0 then []
    else if xs[0].0 == key then Delete(xs[1..], key)
    else [xs[0]] + Delete(xs[1..], key)
  }

  /** `Object.keys`: each key once, in first-occurrence order. */
  function Keys<V>(xs: Assoc<V>): (r: seq<string>)
    ensures forall k :: k in r <==> Lookup(xs, k).Some?
    ensures Distinct(r)
  {
    if |xs| == 0 then []
    else
      var rest := RemoveAll(Keys(xs[1..]), xs[0].0);
      DistinctCons(xs[0].0, rest);
      [xs[0].0] + rest
  }

  /** `xs` without any occurrence of `x`, order kept. */
  function RemoveAll(xs: seq<string>, x: string): (r: seq<string>)
    ensures forall y :: y in r <==> y in xs && y != x
    ensures Distinct(xs) ==> Distinct(r)
  {
    if |xs| == 0 then []
    else if xs[0] == x then RemoveAll(xs[1..], x)
    else
      var rest := RemoveAll(xs[1..], x);
      if Distinct(xs) then
        assert xs[0] !in xs[1..] by {
          forall j | 0 <= j < |xs[1..]| ensures xs[1..][j] != xs[0] {
            assert xs[1..][j] == xs[j + 1];
          }
        }
        DistinctCons(xs[0], rest);
        [xs[0]] + rest
      else [xs[0]] + rest
  }

  lemma DistinctCons(x: string, xs: seq<string>)
    requires Distinct(xs) && x !in xs
    ensures Distinct([x] + xs)
  {
    forall i, j | 0 <= i < j < |[x] + xs| ensures ([x] + xs)[i] != ([x] + xs)[j] {
      assert ([x] + xs)[j] == xs[j - 1];
      if i > 0 {
        assert ([x] + xs)[i] == xs[i - 1];
      }
    }
  }

  /** Assign every key of `keys` its value in `over`, in order. */
  function SetEach<V>(base: Assoc<V>, over: Assoc<V>, keys: seq<string>): (r: Assoc<V>)
    requires forall k :: k in keys ==> Lookup(over, k).Some?
    ensures forall k :: k in keys ==> Lookup(r, k) == Lookup(over, k)
    ensures forall k :: k !in keys ==> Lookup(r, k) == Lookup(base, k)
    decreases |keys|
  {
    if |keys| == 0 then base
    else SetEach(Set(base, keys[0], Lookup(over, keys[0]).value), over, keys[1..])
  }

  /**
    `merge(base, over)` / `Object.assign`: the keys of `over` win, `base` keeps the rest.
    Keys already in `base` keep their position; new ones follow in the order of `over`.
  */
  function Merge<V>(base: Assoc<V>, over: Assoc<V>): (r: Assoc<V>)
    ensures forall k :: Lookup(r, k) == if Lookup(over, k).Some? then Lookup(over, k) else Lookup(base, k)
  {
    SetEach(base, over, Keys(over))
  }

  /** The binding at index `i` is the one `Lookup` finds when no earlier binding has its key. */
  lemma {:induction false} LookupAt<V>(xs: Assoc<V>, i: nat)
    requires i < |xs|
    requires forall j :: 0 <= j < i ==> xs[j].0 != xs[i].0
    ensures Lookup(xs, xs[i].0) == Some(xs[i].1)
  {
    if i > 0 {
      assert xs[1..][i - 1] == xs[i];
      LookupAt(xs[1..], i - 1);
    }
  }

  /** A list whose keys are `ks` binds exactly the keys in `ks`. */
  lemma LookupDefinedIff<V>(xs: Assoc<V>, ks: seq<string>)
    requires |xs| == |ks|
    requires forall i :: 0 <= i < |xs| ==> xs[i].0 == ks[i]
    ensures forall k :: Lookup(xs, k).Some? <==> k in ks
  {
    forall k ensures Lookup(xs, k).Some? <==> k in ks {
      if k in ks {
        var i :| 0 <= i < |ks| && ks[i] == k;
        assert xs[i].0 == k;
      }
    }
  }

  /** One step of `Lookup`: the first binding answers for its own key and passes every other
      key on. */
  lemma LookupCons<V>(k: string, v: V, rest: Assoc<V>, key: string)
    ensures Lookup([(k, v)] + rest, key) == if k == key then Some(v) else Lookup(rest, key)
  {
    assert ([(k, v)] + rest)[1..] == rest;
  }

  /** `LookupCons` for every key at once. */
  lemma LookupConsEach<V>(k: string, v: V, rest: Assoc<V>)
    ensures forall key :: Lookup([(k, v)] + rest, key) == if k == key then Some(v) else Lookup(rest, key)
  {
    forall key {
      LookupCons(k, v, rest, key);
    }
  }

  /** Assigning a key the value it already has changes nothing. */
  lemma SetSame<V>(xs: Assoc<V>, key: string, v: V)
    requires Lookup(xs, key) == Some(v)
    ensures Set(xs, key, v) == xs
  {
  }
}
