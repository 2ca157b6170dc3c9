/** Operations that undo each other on a fresh key. */
module RoundTrips {
  import opened DotNet
  import opened IndexLookup
  import opened OrderedDictionary

  /** A fresh key's `Add` is undone by removing that key. */
  lemma AddThenRemove<K, V>(d: Dict<K, V>, key: K, value: V)
    requires WellFormed(d) && !ContainsKey(d, key)
    ensures Remove(Add(d, key, value).state, key) == (d, true)
  {
    var n := Count(d);
    var a := Add(d, key, value).state;
    assert a == Dict(d.items + [value], d.lookup[key := n]);
    AppendThenRemove(d.lookup, key, n);
    assert (d.items + [value])[..n] + (d.items + [value])[n + 1..] == d.items;
  }

  /** A fresh key's `Insert` at `index` is undone by `RemoveAt(index)`. */
  lemma InsertThenRemoveAt<K, V>(d: Dict<K, V>, index: int, key: K, value: V)
    requires WellFormed(d) && 0 <= index <= Count(d) && !ContainsKey(d, key)
    ensures RemoveAt(Insert(d, index, key, value).state, index) == Step(d, Returned(()))
  {
    if index == Count(d) {
      AddThenRemove(d, key, value);
    } else {
      assert Insert(d, index, key, value) == InsertInterior(d, index, key, value);
      InteriorThenRemoveEntryAt(d, index, key, value);
    }
  }

  /** The interior branch of `Insert` with a fresh key is undone by removing
      the entry at `index`. */
  lemma InteriorThenRemoveEntryAt<K, V>(d: Dict<K, V>, index: int, key: K, value: V)
    requires WellFormed(d) && 0 <= index < Count(d) && !ContainsKey(d, key)
    ensures RemoveEntryAt(InsertInterior(d, index, key, value).state, index) == d
  {
    var items := d.items[..index] + [value] + d.items[index..];
    var a := InsertInterior(d, index, key, value).state;
    assert a == Dict(items, InsertIndexLookupItem(d.lookup, key, index).state);
    InsertThenRemove(d.lookup, key, index);
    assert items[..index] + items[index + 1..] == d.items by {
      assert items[..index] == d.items[..index];
      assert items[index + 1..] == d.items[index..];
    }
  }

  /** Setting a present key back to the value it had changes nothing. */
  lemma SetSameValue<K, V>(d: Dict<K, V>, key: K)
    requires WellFormed(d) && ContainsKey(d, key)
    ensures Set(d, key, Get(d, key).value) == d
  {
  }
}
