/** Python dictionaries with string keys, which remember the order in which
    their keys were first inserted. */
module Dicts {

  datatype Dict<V> = Dict(keys: seq<string>, entries: map<string, V>) {

    /** The key order lists every key of the dictionary exactly once. */
    ghost predicate Valid() {
      && (forall i, j :: 0 <= i < j < |keys| ==> keys[i] != keys[j])
      && (forall k :: k in entries <==> k in keys)
    }

    /** `d.get(k, default)` */
    function Get(k: string, default: V): V {
      if k in entries then entries[k] else default
    }

    /** `d[k] = v`: a key already present keeps its place in the order and a
        new key goes last, so no key that was there moves. */
    function Put(k: string, v: V): (d: Dict<V>)
      ensures Valid() ==> d.Valid()
      ensures d.entries == entries[k := v]
      ensures |keys| <= |d.keys| <= |keys| + 1 && d.keys[..|keys|] == keys
      ensures Valid() ==> (|d.keys| == |keys| + 1 <==> k !in entries)
    {
      Dict(if k in entries then keys else keys + [k], entries[k := v])
    }
  }

  /** `{}` */
  function Empty<V>(): (d: Dict<V>)
    ensures d.Valid() && d.keys == []
  {
    Dict([], map[])
  }

  /** The dictionary that lists the keys `keys`, in that order, with their values in `m`. */
  function Restrict<V>(keys: seq<string>, m: map<string, V>): (d: Dict<V>)
    requires forall k :: k in keys ==> k in m
    ensures d.keys == keys && forall k :: k in d.entries <==> k in keys
  {
    Dict(keys, map k | k in keys :: m[k])
  }

  /** Inserting the next key of `keys` extends the dictionary of the keys before it. */
  lemma RestrictStep<V>(keys: seq<string>, i: nat, m: map<string, V>)
    requires i < |keys| && forall k :: k in keys ==> k in m
    requires keys[i] !in keys[..i]
    ensures Restrict(keys[..i + 1], m) == Restrict(keys[..i], m).Put(keys[i], m[keys[i]])
  {
    assert keys[..i + 1] == keys[..i] + [keys[i]];
  }

  /** Listing every key of a map gives the map back. */
  lemma RestrictAll<V>(keys: seq<string>, m: map<string, V>)
    requires forall k :: k in m <==> k in keys
    ensures Restrict(keys, m) == Dict(keys, m)
  {
  }

  /** The values of `keys` in `m`, which are sequences, concatenated in key order. */
  function Concat<T>(keys: seq<string>, m: map<string, seq<T>>): seq<T>
    requires forall k :: k in keys ==> k in m
  {
    if keys == [] then []
    else Concat(keys[..|keys| - 1], m) + m[keys[|keys| - 1]]
  }

  /** The concatenation reads only the values of the listed keys. */
  lemma {:induction false} ConcatFrame<T>(keys: seq<string>, m1: map<string, seq<T>>, m2: map<string, seq<T>>)
    requires forall k :: k in keys ==> k in m1 && k in m2 && m1[k] == m2[k]
    ensures Concat(keys, m1) == Concat(keys, m2)
  {
    if keys != [] {
      ConcatFrame(keys[..|keys| - 1], m1, m2);
    }
  }

  /** The next key of `keys` adds its value at the end of the concatenation. */
  lemma ConcatPrefixStep<T>(keys: seq<string>, i: nat, m: map<string, seq<T>>)
    requires i < |keys| && forall k :: k in keys ==> k in m
    ensures Concat(keys[..i + 1], m) == Concat(keys[..i], m) + m[keys[i]]
  {
    assert keys[..i + 1][..i] == keys[..i];
  }

  /** One turn of a loop that builds the dictionary of `keys` in `m` and the
      concatenation of their values in `ms`. */
  lemma RestrictConcatStep<V, T>(keys: seq<string>, i: nat, m: map<string, V>, ms: map<string, seq<T>>,
                                 d: Dict<V>, c: seq<T>)
    requires i < |keys| && forall k :: k in keys ==> k in m && k in ms
    requires keys[i] !in keys[..i]
    requires d == Restrict(keys[..i], m) && c == Concat(keys[..i], ms)
    ensures d.Put(keys[i], m[keys[i]]) == Restrict(keys[..i + 1], m)
    ensures c + ms[keys[i]] == Concat(keys[..i + 1], ms)
  {
    RestrictStep(keys, i, m);
    ConcatPrefixStep(keys, i, ms);
  }

  /** A key of a valid dictionary does not occur before its own place. */
  lemma KeyNotBefore<V>(d: Dict<V>, i: nat)
    requires d.Valid() && i < |d.keys|
    ensures d.keys[i] !in d.keys[..i]
  {
  }

  /** Taking the whole of `keys` as a prefix changes nothing. */
  lemma ConcatAll<T>(keys: seq<string>, m: map<string, seq<T>>)
    requires forall k :: k in keys ==> k in m
    ensures keys[..|keys|] == keys && Concat(keys[..|keys|], m) == Concat(keys, m)
  {
    assert keys[..|keys|] == keys;
  }

  /** An item is in the concatenation exactly when it is in the value of one
      of the keys. */
  lemma {:induction false} ConcatMember<T>(keys: seq<string>, m: map<string, seq<T>>, x: T)
    requires forall k :: k in keys ==> k in m
    ensures x in Concat(keys, m) <==> exists k :: k in keys && x in m[k]
  {
    if keys != [] {
      var n := |keys| - 1;
      ConcatMember(keys[..n], m, x);
      assert keys == keys[..n] + [keys[n]];
    }
  }

  /** When the value of each key holds at most one item, owned by that key,
      and no key occurs twice, the concatenation holds no two items with the
      same owner. */
  lemma {:induction false} ConcatOwned<T>(keys: seq<string>, m: map<string, seq<T>>, owner: T -> string)
    requires forall k :: k in keys ==> k in m && |m[k]| <= 1
    requires forall k, x :: k in keys && x in m[k] ==> owner(x) == k
    requires forall i, j :: 0 <= i < j < |keys| ==> keys[i] != keys[j]
    ensures forall x :: x in Concat(keys, m) ==> owner(x) in keys
    ensures forall i, j :: 0 <= i < j < |Concat(keys, m)| ==> owner(Concat(keys, m)[i]) != owner(Concat(keys, m)[j])
  {
    if keys != [] {
      var n := |keys| - 1;
      var k, before := keys[n], keys[..n];
      ConcatOwned(before, m, owner);
      var prior, c := Concat(before, m), Concat(keys, m);
      assert keys == before + [k];
      assert k !in before;
      forall i, j | 0 <= i < j < |c| ensures owner(c[i]) != owner(c[j]) {
        assert c == prior + m[k];
        if j < |prior| {
          assert c[i] == prior[i] && c[j] == prior[j];
          assert owner(c[i]) != owner(c[j]);
        } else {
          assert c[j] == m[k][j - |prior|] && c[j] in m[k];
          assert owner(c[j]) == k;
          assert c[i] == prior[i] && prior[i] in prior;
          assert owner(c[i]) in before;
          assert owner(c[i]) != owner(c[j]);
        }
      }
    }
  }

  /** Maps with the same keys and the same value at each key are equal. */
  lemma MapsEqual<V>(m1: map<string, V>, m2: map<string, V>)
    requires forall k :: k in m1 <==> k in m2
    requires forall k :: k in m1 ==> m1[k] == m2[k]
    ensures m1 == m2
  {
  }
}
