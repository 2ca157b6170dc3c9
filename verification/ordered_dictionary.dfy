/** `OrderedDictionary<TKey,TValue>`: a positional list of values (`Items`)
    kept in step with a table from each key to its value's position
    (`IndexLookup`). Every public operation is a pure function from the
    state before the call to the state after it; an operation that throws
    returns the state as the exception left it. */
module OrderedDictionary {
  import opened DotNet
  import opened IndexLookup

  /** The two owned structures: the values in order, and each key's position. */
  datatype Dict<K, V> = Dict(items: seq<V>, lookup: Positions<K>)

  /** What every operation preserves, including the ones that throw part-way:
      each recorded position addresses a value, and no two keys share one. */
  ghost predicate WellFormed<K, V>(d: Dict<K, V>) {
    Bounded(d.lookup, |d.items|) && Injective(d.lookup)
  }

  /** The intended invariant: the positions are exactly 0..Count-1, each
      held by one key, so every value has a key. */
  ghost predicate Valid<K, V>(d: Dict<K, V>) {
    Dense(d.lookup, |d.items|)
  }

  /** `Count`: the length of the positional list. */
  function Count<K, V>(d: Dict<K, V>): nat {
    |d.items|
  }

  /** The dictionary seen as the plain key-to-value map it implements. */
  ghost function AsMap<K, V>(d: Dict<K, V>): map<K, V>
    requires WellFormed(d)
  {
    map k | k in d.lookup :: d.items[d.lookup[k]]
  }

  /** The constructor: both structures empty. */
  function Empty<K, V>(): (d: Dict<K, V>)
    ensures Valid(d) && Count(d) == 0 && AsMap(d) == map[]
  {
    Dict([], map[])
  }

  /** `ContainsKey`: a lookup in the table alone; it holds exactly when
      `IndexOf` finds a position. */
  function ContainsKey<K, V>(d: Dict<K, V>, key: K): (r: bool)
    ensures WellFormed(d) ==> (r <==> IndexOf(d, key) >= 0)
  {
    key in d.lookup
  }

  /** `Contains(KeyValuePair)`: only the key is looked at, so the answer
      is the same for every value: whether `IndexOf` finds the key. */
  function ContainsPair<K, V>(d: Dict<K, V>, key: K, value: V): (r: bool)
    ensures WellFormed(d) ==> (r <==> IndexOf(d, key) >= 0)
  {
    ContainsKey(d, key)
  }

  /** `IndexOf`: the key's position, or -1 when it is absent. */
  function IndexOf<K, V>(d: Dict<K, V>, key: K): (r: int)
    ensures key !in d.lookup ==> r == -1
    ensures WellFormed(d) ==> (r == -1 <==> key !in d.lookup) && r < Count(d)
    ensures WellFormed(d) && key in d.lookup ==> 0 <= r == d.lookup[key]
  {
    if key in d.lookup then d.lookup[key] else -1
  }

  /** The getter of the key indexer `this[key]`. */
  function Get<K, V>(d: Dict<K, V>, key: K): (r: Result<V>)
    requires WellFormed(d)
    ensures r.Threw? <==> !ContainsKey(d, key)
    ensures r.Threw? ==> r.exception == KeyNotFound
    ensures r.Returned? ==> r.value in d.items
    ensures r.Returned? ==> r.value == d.items[IndexOf(d, key)]
  {
    if key in d.lookup then Returned(d.items[d.lookup[key]]) else Threw(KeyNotFound)
  }

  /** `TryGetValue`: None stands for `false` with the default value. */
  function TryGetValue<K, V>(d: Dict<K, V>, key: K): (r: Option<V>)
    requires WellFormed(d)
    ensures r.Some? <==> ContainsKey(d, key)
    ensures r.Some? ==> Get(d, key) == Returned(r.value)
    ensures r.None? ==> Get(d, key) == Threw(KeyNotFound)
  {
    if key in d.lookup then Some(d.items[d.lookup[key]]) else None
  }

  /** `Add(key, value)` as written: the value is appended to the list
      before `Dictionary.Add` checks the key, so a duplicate key throws and
      leaves an orphan value behind. */
  function Add<K, V>(d: Dict<K, V>, key: K, value: V): (r: Step<Dict<K, V>, ()>)
    requires WellFormed(d)
    ensures WellFormed(r.state)
    ensures Count(r.state) == Count(d) + 1
    ensures r.state.items == d.items + [value]
    ensures r.result.Threw? <==> ContainsKey(d, key)
    ensures r.result.Threw? ==> r.result.exception == Argument && r.state.lookup == d.lookup
    ensures r.result.Returned? ==> r.state.lookup.Keys == d.lookup.Keys + {key}
    ensures forall k :: k in d.lookup ==> IndexOf(r.state, k) == IndexOf(d, k)
    ensures r.result.Returned? ==> IndexOf(r.state, key) == Count(d)
  {
    var s := DictionaryAdd(d.lookup, key, |d.items|);
    Step(Dict(d.items + [value], s.state), s.result)
  }

  /** `Insert(index, key, value)` as written: the range is checked first;
      `index == Count` is `Add`; otherwise the value goes into the list and
      the table is renumbered before `Dictionary.Add` checks the key. */
  function Insert<K, V>(d: Dict<K, V>, index: int, key: K, value: V): (r: Step<Dict<K, V>, ()>)
    requires WellFormed(d)
    ensures WellFormed(r.state)
    ensures !(0 <= index <= Count(d)) ==> r == Step(d, Threw(ArgumentOutOfRange))
    ensures index == Count(d) ==> r == Add(d, key, value)
    ensures 0 <= index < Count(d) ==> r == InsertInterior(d, index, key, value)
  {
    if index < 0 || index > |d.items| then
      Step(d, Threw(ArgumentOutOfRange))
    else if index == |d.items| then
      Add(d, key, value)
    else
      InsertInterior(d, index, key, value)
  }

  /** The interior branch of `Insert`: `Items.Insert`, then
      `InsertIndexLookupItem`. */
  function InsertInterior<K, V>(d: Dict<K, V>, index: int, key: K, value: V): (r: Step<Dict<K, V>, ()>)
    requires WellFormed(d) && 0 <= index < Count(d)
    ensures WellFormed(r.state)
    ensures r.state.items == d.items[..index] + [value] + d.items[index..]
    ensures r.state.lookup == InsertIndexLookupItem(d.lookup, key, index).state
    ensures r.state.lookup.Keys == d.lookup.Keys + {key}
    ensures r.result.Threw? <==> key in d.lookup
    ensures r.result.Threw? ==> r.result.exception == Argument
    ensures r.result.Returned? ==> r.state.lookup[key] == index
    ensures forall k :: k in d.lookup ==>
              r.state.lookup[k] == if d.lookup[k] >= index then d.lookup[k] + 1 else d.lookup[k]
  {
    InsertIndexLookupItemWellFormed(d.lookup, key, index, |d.items|);
    InsertIndexLookupItemMoves(d.lookup, key, index);
    var s := InsertIndexLookupItem(d.lookup, key, index);
    Step(Dict(d.items[..index] + [value] + d.items[index..], s.state), s.result)
  }

  /** The setter of the key indexer `this[key] = value`: a present key's
      value is replaced in place, an absent key is added at the end. */
  function Set<K, V>(d: Dict<K, V>, key: K, value: V): (r: Dict<K, V>)
    requires WellFormed(d)
    ensures WellFormed(r)
    ensures Get(r, key) == Returned(value)
    ensures ContainsKey(d, key) ==>
              && r.lookup == d.lookup
              && Count(r) == Count(d)
              && forall i :: 0 <= i < Count(d) && i != IndexOf(d, key) ==> r.items[i] == d.items[i]
    ensures !ContainsKey(d, key) ==> Add(d, key, value) == Step(r, Returned(()))
  {
    if key in d.lookup then
      Dict(d.items[d.lookup[key] := value], d.lookup)
    else
      Add(d, key, value).state
  }

  /** `Items.RemoveAt(index)` followed by `RemoveIndexLookupItem(index)`:
      the two steps `Remove` and `RemoveAt` share. */
  function RemoveEntryAt<K, V>(d: Dict<K, V>, index: int): (r: Dict<K, V>)
    requires WellFormed(d) && 0 <= index < Count(d)
    ensures WellFormed(r)
    ensures r.items == d.items[..index] + d.items[index + 1..]
    ensures r.lookup == RemoveIndexLookupItem(d.lookup, index)
    ensures r.lookup.Keys == d.lookup.Keys - KeysAt(d.lookup, index)
    ensures forall k :: k in r.lookup ==>
              r.lookup[k] == if d.lookup[k] > index then d.lookup[k] - 1 else d.lookup[k]
    ensures Valid(d) ==> Valid(r)
  {
    RemoveIndexLookupItemWellFormed(d.lookup, index, |d.items|);
    RemoveIndexLookupItemMoves(d.lookup, index);
    Dict(d.items[..index] + d.items[index + 1..], RemoveIndexLookupItem(d.lookup, index))
  }

  /** `Remove(key)`: true exactly when the key was present; then its value
      leaves the list and every later position moves one place earlier. */
  function Remove<K, V>(d: Dict<K, V>, key: K): (r: (Dict<K, V>, bool))
    requires WellFormed(d)
    ensures WellFormed(r.0)
    ensures r.1 <==> ContainsKey(d, key)
    ensures !r.1 ==> r.0 == d
    ensures r.1 ==>
              && r.0 == RemoveEntryAt(d, IndexOf(d, key))
              && Count(r.0) == Count(d) - 1
              && r.0.lookup.Keys == d.lookup.Keys - {key}
              && forall k :: k in r.0.lookup ==>
                   IndexOf(r.0, k) == if IndexOf(d, k) > IndexOf(d, key) then IndexOf(d, k) - 1 else IndexOf(d, k)
    ensures Valid(d) ==> Valid(r.0)
  {
    if key in d.lookup then
      assert KeysAt(d.lookup, d.lookup[key]) == {key};
      (RemoveEntryAt(d, d.lookup[key]), true)
    else
      (d, false)
  }

  /** `RemoveAt(index)`: positions outside 0..Count-1 throw and change
      nothing; otherwise the value and the key recorded there go. */
  function RemoveAt<K, V>(d: Dict<K, V>, index: int): (r: Step<Dict<K, V>, ()>)
    requires WellFormed(d)
    ensures WellFormed(r.state)
    ensures r.result.Threw? <==> !(0 <= index < Count(d))
    ensures r.result.Threw? ==> r == Step(d, Threw(ArgumentOutOfRange))
    ensures r.result.Returned? ==>
              && r.state == RemoveEntryAt(d, index)
              && Count(r.state) == Count(d) - 1
              && (forall k :: k in d.lookup ==> (ContainsKey(r.state, k) <==> IndexOf(d, k) != index))
              && forall k :: k in r.state.lookup ==>
                   IndexOf(r.state, k) == if IndexOf(d, k) > index then IndexOf(d, k) - 1 else IndexOf(d, k)
    ensures Valid(d) ==> Valid(r.state)
  {
    if index < 0 || index >= |d.items| then
      Step(d, Threw(ArgumentOutOfRange))
    else
      Step(RemoveEntryAt(d, index), Returned(()))
  }

  /** `Clear`: both structures emptied together, whatever state they were in. */
  function Clear<K, V>(d: Dict<K, V>): (r: Dict<K, V>)
    ensures Valid(r) && Count(r) == 0 && AsMap(r) == map[]
  {
    Dict([], map[])
  }

  /** `Values` (and the value enumerator): the values in position order. */
  function Values<K, V>(d: Dict<K, V>): (r: seq<V>)
    requires WellFormed(d)
    ensures |r| == Count(d)
    ensures forall k :: k in d.lookup ==> r[IndexOf(d, k)] == AsMap(d)[k]
  {
    d.items
  }

  /** `Keys`, as a set: the enumeration order of the underlying hash table
      is not specified. */
  function Keys<K, V>(d: Dict<K, V>): (r: set<K>)
    ensures WellFormed(d) ==> r == AsMap(d).Keys
    ensures Valid(d) ==> |r| == Count(d)
  {
    d.lookup.Keys
  }

  /** The argument checks `CopyTo` makes before writing anything. `target`
      is the destination array's length, or None for a null array. */
  function CopyToChecks<K, V>(d: Dict<K, V>, target: Option<nat>, index: int): (r: Result<()>)
    ensures r.Returned? <==> target.Some? && 0 <= index && index + Count(d) <= target.value
    ensures target.None? ==> r == Threw(ArgumentNull)
    ensures target.Some? && !(0 <= index <= target.value) ==> r == Threw(ArgumentOutOfRange)
    ensures target.Some? && 0 <= index <= target.value < index + Count(d) ==> r == Threw(Argument)
  {
    if target.None? then Threw(ArgumentNull)
    else if index < 0 || index > target.value then Threw(ArgumentOutOfRange)
    else if index + |d.items| > target.value then Threw(Argument)
    else Returned(())
  }
}
