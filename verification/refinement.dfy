/** What each operation does to the abstract key-to-value map, where each
    key and value ends up in the positional list, and when the intended
    invariant `Valid` survives. */
module Refinement {
  import opened DotNet
  import opened IndexLookup
  import opened OrderedDictionary

  /** The abstract map is determined key by key. */
  lemma AsMapEquals<K, V>(d: Dict<K, V>, m: map<K, V>)
    requires WellFormed(d) && d.lookup.Keys == m.Keys
    requires forall k :: k in m ==> d.items[d.lookup[k]] == m[k]
    ensures AsMap(d) == m
  {
  }

  /** Inserting `value` at `index` keeps the prefix, puts `value` at
      `index` and shifts the suffix by one. */
  lemma InsertedSlices<V>(items: seq<V>, index: int, value: V)
    requires 0 <= index <= |items|
    ensures var t := items[..index] + [value] + items[index..];
      && |t| == |items| + 1
      && t[index] == value
      && t[..index] == items[..index]
      && t[index + 1..] == items[index..]
  {
    var t := items[..index] + [value] + items[index..];
    assert t[..index] == items[..index];
    assert t[index + 1..] == items[index..];
  }

  /** `Count` is the length of the list: never fewer than the keys, since
      each key holds its own position, and exactly their number on a valid
      dictionary. */
  lemma CountBoundsKeys<K, V>(d: Dict<K, V>)
    requires WellFormed(d)
    ensures |Keys(d)| <= Count(d)
    ensures Valid(d) <==> |Keys(d)| == Count(d)
    ensures Valid(d) ==> Count(d) == |AsMap(d)|
  {
    InjectiveValuesSize(d.lookup);
    assert d.lookup.Values <= Range(|d.items|);
    assert |Range(|d.items|) - d.lookup.Values| == |Range(|d.items|)| - |d.lookup.Values|;
    assert |d.lookup.Keys| == |d.lookup|;
    assert AsMap(d).Keys == d.lookup.Keys;
  }

  /** `ContainsKey` is membership in the abstract map. */
  lemma ContainsKeyIsMember<K, V>(d: Dict<K, V>, key: K)
    requires WellFormed(d)
    ensures ContainsKey(d, key) <==> key in AsMap(d)
  {
  }

  /** `Contains(pair)` answers for the key alone: it holds for any value
      once the key is present, even one the key is not bound to. */
  lemma ContainsPairIgnoresValue<K, V>(d: Dict<K, V>, key: K, value: V)
    requires WellFormed(d)
    ensures ContainsPair(d, key, value) <==> key in AsMap(d)
  {
  }

  /** The key indexer's getter reads the abstract map. */
  lemma GetIsLookup<K, V>(d: Dict<K, V>, key: K)
    requires WellFormed(d)
    ensures Get(d, key).Returned? <==> key in AsMap(d)
    ensures Get(d, key).Returned? ==> Get(d, key).value == AsMap(d)[key]
  {
  }

  /** A fresh key's `Add` extends the abstract map with the new binding. */
  lemma AddRefinesMap<K, V>(d: Dict<K, V>, key: K, value: V)
    requires WellFormed(d) && !ContainsKey(d, key)
    ensures AsMap(Add(d, key, value).state) == AsMap(d)[key := value]
  {
    var n := Count(d);
    var r := Add(d, key, value).state;
    assert r == Dict(d.items + [value], d.lookup[key := n]);
    var expected := AsMap(d)[key := value];
    forall k | k in expected
      ensures r.items[r.lookup[k]] == expected[k]
    {
      if k != key {
        assert r.items[d.lookup[k]] == d.items[d.lookup[k]];
      }
    }
    AsMapEquals(r, expected);
  }

  /** A valid dictionary stays valid under `Add` exactly when the key was
      fresh: a duplicate grows the list but not the table. */
  lemma AddKeepsValid<K, V>(d: Dict<K, V>, key: K, value: V)
    requires Valid(d)
    ensures Valid(Add(d, key, value).state) <==> !ContainsKey(d, key)
  {
    var r := Add(d, key, value).state;
    if ContainsKey(d, key) {
      assert |r.lookup| == |d.items| < |r.items|;
    } else {
      assert r.lookup.Keys == d.lookup.Keys + {key};
    }
  }

  /** An in-range `Insert` puts `value` at `index`, moves the values from
      `index` on one place later, and throws exactly when the key was
      already present (after the list has changed). */
  lemma InsertPlacesValue<K, V>(d: Dict<K, V>, index: int, key: K, value: V)
    requires WellFormed(d) && 0 <= index <= Count(d)
    ensures var r := Insert(d, index, key, value);
      && Count(r.state) == Count(d) + 1
      && r.state.items[index] == value
      && r.state.items[..index] == d.items[..index]
      && r.state.items[index + 1..] == d.items[index..]
      && (r.result.Threw? <==> ContainsKey(d, key))
      && (r.result.Threw? ==> r.result.exception == Argument)
      && (r.result.Returned? ==> IndexOf(r.state, key) == index)
  {
    var r := Insert(d, index, key, value);
    if index < Count(d) {
      assert r == InsertInterior(d, index, key, value);
    } else {
      assert r == Add(d, key, value);
    }
    InsertedSlices(d.items, index, value);
  }

  /** An in-range `Insert` moves every key recorded at or after `index` one
      place later and leaves the keys before it where they were. */
  lemma InsertMovesKeys<K, V>(d: Dict<K, V>, index: int, key: K, value: V)
    requires WellFormed(d) && 0 <= index <= Count(d)
    ensures forall k :: k in d.lookup ==>
              var p := IndexOf(d, k);
              IndexOf(Insert(d, index, key, value).state, k) == if p >= index then p + 1 else p
  {
    var r := Insert(d, index, key, value);
    if index < Count(d) {
      assert r == InsertInterior(d, index, key, value);
    } else {
      assert r == Add(d, key, value);
    }
  }

  /** A fresh key's `Insert` extends the abstract map with the new binding. */
  lemma InsertRefinesMap<K, V>(d: Dict<K, V>, index: int, key: K, value: V)
    requires WellFormed(d) && 0 <= index <= Count(d) && !ContainsKey(d, key)
    ensures AsMap(Insert(d, index, key, value).state) == AsMap(d)[key := value]
  {
    if index == Count(d) {
      AddRefinesMap(d, key, value);
    } else {
      assert Insert(d, index, key, value) == InsertInterior(d, index, key, value);
      InsertInteriorRefinesMap(d, index, key, value);
    }
  }

  /** The interior branch of `Insert`, seen on the abstract map. */
  lemma InsertInteriorRefinesMap<K, V>(d: Dict<K, V>, index: int, key: K, value: V)
    requires WellFormed(d) && 0 <= index < Count(d) && !ContainsKey(d, key)
    ensures AsMap(InsertInterior(d, index, key, value).state) == AsMap(d)[key := value]
  {
    var r := InsertInterior(d, index, key, value).state;
    var expected := AsMap(d)[key := value];
    forall k | k in expected
      ensures r.items[r.lookup[k]] == expected[k]
    {
      InsertInteriorValueOf(d, index, key, value, k);
    }
    AsMapEquals(r, expected);
  }

  /** One key's value after the interior branch of `Insert`. */
  lemma InsertInteriorValueOf<K, V>(d: Dict<K, V>, index: int, key: K, value: V, k: K)
    requires WellFormed(d) && 0 <= index < Count(d) && !ContainsKey(d, key)
    requires k == key || k in d.lookup
    ensures var r := InsertInterior(d, index, key, value).state;
      r.items[r.lookup[k]] == if k == key then value else d.items[d.lookup[k]]
  {
    if k == key {
      InsertedValueMoves(d.items, index, value, index);
    } else {
      InsertedValueMoves(d.items, index, value, d.lookup[k]);
    }
  }

  /** After inserting `value` at `index`, it sits at `index`, and the value
      that sat at `p` sits at `p` or `p + 1` as `p` lies before or after
      `index`. */
  lemma InsertedValueMoves<V>(items: seq<V>, index: int, value: V, p: int)
    requires 0 <= index <= |items| && 0 <= p < |items|
    ensures (items[..index] + [value] + items[index..])[index] == value
    ensures (items[..index] + [value] + items[index..])[if p >= index then p + 1 else p] == items[p]
  {
  }

  /** A valid dictionary stays valid under an in-range `Insert` exactly
      when the key was fresh: a duplicate grows the list but not the table. */
  lemma InsertKeepsValid<K, V>(d: Dict<K, V>, index: int, key: K, value: V)
    requires Valid(d) && 0 <= index <= Count(d)
    ensures Valid(Insert(d, index, key, value).state) <==> !ContainsKey(d, key)
  {
    if index < Count(d) {
      InsertIndexLookupItemDense(d.lookup, key, index, |d.items|);
      assert Insert(d, index, key, value) == InsertInterior(d, index, key, value);
    }
  }

  /** Setting by key rebinds that key in the abstract map. */
  lemma SetRefinesMap<K, V>(d: Dict<K, V>, key: K, value: V)
    requires WellFormed(d)
    ensures AsMap(Set(d, key, value)) == AsMap(d)[key := value]
  {
    if ContainsKey(d, key) {
      var r := Set(d, key, value);
      assert AsMap(r).Keys == AsMap(d)[key := value].Keys;
      forall k | k in d.lookup && k != key
        ensures r.items[r.lookup[k]] == d.items[d.lookup[k]]
      {
      }
    } else {
      AddRefinesMap(d, key, value);
    }
  }

  /** Setting by key keeps a valid dictionary valid. */
  lemma SetKeepsValid<K, V>(d: Dict<K, V>, key: K, value: V)
    requires Valid(d)
    ensures Valid(Set(d, key, value))
  {
    if !ContainsKey(d, key) {
      AddKeepsValid(d, key, value);
    }
  }

  /** Removing the entry at a position unbinds exactly the keys recorded
      there and keeps every other binding. */
  lemma RemoveEntryAtRefinesMap<K, V>(d: Dict<K, V>, index: int)
    requires WellFormed(d) && 0 <= index < Count(d)
    ensures AsMap(RemoveEntryAt(d, index)) == AsMap(d) - KeysAt(d.lookup, index)
  {
    var r := RemoveEntryAt(d, index);
    var expected := AsMap(d) - KeysAt(d.lookup, index);
    assert AsMap(r).Keys == expected.Keys;
    forall k | k in expected
      ensures AsMap(r)[k] == expected[k]
    {
      var p := d.lookup[k];
      RemovedItems(d.items, index);
      if p < index {
        assert r.items[p] == d.items[p];
      } else {
        assert r.items[p - 1] == d.items[p];
      }
    }
  }

  /** Where each remaining value sits after removing position `index`. */
  lemma RemovedItems<V>(items: seq<V>, index: int)
    requires 0 <= index < |items|
    ensures var t := items[..index] + items[index + 1..];
      && |t| == |items| - 1
      && (forall p :: 0 <= p < index ==> t[p] == items[p])
      && (forall p :: index < p < |items| ==> t[p - 1] == items[p])
  {
  }

  /** `Remove(key)` removes exactly that key from the abstract map. */
  lemma RemoveRefinesMap<K, V>(d: Dict<K, V>, key: K)
    requires WellFormed(d)
    ensures AsMap(Remove(d, key).0) == AsMap(d) - {key}
  {
    if ContainsKey(d, key) {
      assert KeysAt(d.lookup, d.lookup[key]) == {key};
      RemoveEntryAtRefinesMap(d, d.lookup[key]);
    }
  }

  /** An in-range `RemoveAt` removes from the abstract map the keys
      recorded at that position, and nothing else. */
  lemma RemoveAtRefinesMap<K, V>(d: Dict<K, V>, index: int)
    requires WellFormed(d) && 0 <= index < Count(d)
    ensures AsMap(RemoveAt(d, index).state) == AsMap(d) - KeysAt(d.lookup, index)
  {
    RemoveEntryAtRefinesMap(d, index);
  }

  /** On a valid dictionary `RemoveAt(index)` is `Remove` of the one key
      recorded at `index`. */
  lemma RemoveAtIsRemove<K, V>(d: Dict<K, V>, index: int) returns (key: K)
    requires Valid(d) && 0 <= index < Count(d)
    ensures IndexOf(d, key) == index
    ensures forall k :: IndexOf(d, k) == index ==> k == key
    ensures RemoveAt(d, index) == Step(Remove(d, key).0, Returned(()))
  {
    key := DenseKeyAt(d.lookup, |d.items|, index);
  }

  /** On a valid dictionary every listed value is some key's value, and the
      key sits at the value's position. */
  lemma ValuesAreBound<K, V>(d: Dict<K, V>, i: int) returns (key: K)
    requires Valid(d) && 0 <= i < Count(d)
    ensures ContainsKey(d, key) && IndexOf(d, key) == i && Values(d)[i] == AsMap(d)[key]
  {
    key := DenseKeyAt(d.lookup, |d.items|, i);
  }
}
