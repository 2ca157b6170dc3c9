/** `ListIndexer<T>` (`ByIndex`): the positional list's own indexer, shared
    with the dictionary. Reads and writes go straight to the list; the
    key table is never consulted or changed. */
module ListIndexer {
  import opened DotNet
  import opened IndexLookup
  import opened OrderedDictionary

  /** `ByIndex[index]` read: `List<T>`'s indexer throws outside 0..Count-1. */
  function GetAt<K, V>(d: Dict<K, V>, index: int): (r: Result<V>)
    requires WellFormed(d)
    ensures r.Threw? <==> !(0 <= index < Count(d))
    ensures r.Threw? ==> r.exception == ArgumentOutOfRange
    ensures r.Returned? ==> r.value == Values(d)[index]
  {
    if 0 <= index < |d.items| then Returned(d.items[index]) else Threw(ArgumentOutOfRange)
  }

  /** `ByIndex[index] = value`: replaces one position of the list; out of
      range it throws and changes nothing. */
  function SetAt<K, V>(d: Dict<K, V>, index: int, value: V): (r: Step<Dict<K, V>, ()>)
    ensures r.result.Threw? <==> !(0 <= index < Count(d))
    ensures r.result.Threw? ==> r == Step(d, Threw(ArgumentOutOfRange))
    ensures r.state.lookup == d.lookup && Count(r.state) == Count(d)
    ensures r.result.Returned? ==> r.state.items[index] == value
    ensures forall i :: 0 <= i < Count(d) && i != index ==> r.state.items[i] == d.items[i]
  {
    if 0 <= index < |d.items| then Step(Dict(d.items[index := value], d.lookup), Returned(()))
    else Step(d, Threw(ArgumentOutOfRange))
  }

  /** Writing by position keeps both invariants: the table is untouched and
      the list keeps its length. */
  lemma SetAtKeepsInvariants<K, V>(d: Dict<K, V>, index: int, value: V)
    ensures WellFormed(d) ==> WellFormed(SetAt(d, index, value).state)
    ensures Valid(d) ==> Valid(SetAt(d, index, value).state)
  {
  }

  /** Reading by position at a key's index reads that key's value. */
  lemma GetAtIndexOf<K, V>(d: Dict<K, V>, key: K)
    requires WellFormed(d) && ContainsKey(d, key)
    ensures GetAt(d, IndexOf(d, key)) == Get(d, key)
  {
  }

  /** On a valid dictionary, writing at a position is writing by the key
      recorded there. */
  lemma SetAtIsSetByKey<K, V>(d: Dict<K, V>, index: int, value: V) returns (key: K)
    requires Valid(d) && 0 <= index < Count(d)
    ensures IndexOf(d, key) == index
    ensures SetAt(d, index, value) == Step(Set(d, key, value), Returned(()))
  {
    key := DenseKeyAt(d.lookup, |d.items|, index);
  }
}
