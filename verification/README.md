# OrderedDictionary in Dafny

A model of `SoftCircuits.Collections.OrderedDictionary<TKey,TValue>`, with
proofs about it. The class is a dictionary that also keeps its values in a
list, so they can be reached by key and by position. It owns two structures:

- `Items`, a `List<TValue>` holding the values in order;
- `IndexLookup`, a `Dictionary<TKey,int>` mapping each key to its value's
  position in `Items`.

Every public operation has to keep the two in step. `Insert` and `Remove`
renumber the whole table (`InsertIndexLookupItem`, `RemoveIndexLookupItem`).
The `ByIndex` property is a `ListIndexer<TValue>` that reads and writes
`Items` by position and never touches the table.

## How the model is built

- `OrderedDictionary.Dict(items, lookup)` is the pair of structures. Every
  mutating call is a pure function from the state before the call to the
  state after it.
- A call that can throw returns `DotNet.Step(state, result)`. The state
  after a throw keeps whatever the call had already changed. This matters
  here: `Add` appends to `Items` before `Dictionary.Add` checks the key, and
  `Insert` also renumbers the table before that check.
- `WellFormed`: every recorded position addresses a value, and no two keys
  share a position. Every operation preserves it, including the throwing
  paths, and the operations require it.
- `Valid`: the positions are exactly `0..Count-1`, so every value has a
  key. This is the invariant the class intends. In the model, only a
  duplicate key passed to `Add`, `Insert` or `AddRange` breaks it (see
  Findings). In the program a null key breaks it the same way, because the
  model has no null key (see Left out).
- `AsMap` reads the dictionary as a plain key-to-value map. The lemmas in
  `Refinement` state what each operation does to that map.
- `Corrected` holds the evidently intended `Add`, `Insert` and `AddRange`,
  which check the key before changing anything. `Traces` compares runs of
  calls made with the code as written against runs made with the corrected
  operations.

Files:

| file | contents |
|---|---|
| `dotnet.dfy` | exceptions, call outcomes, `Dictionary.Add` |
| `index_lookup.dfy` | the key table and its two renumbering passes |
| `ordered_dictionary.dfy` | the class's operations |
| `bulk_add.dfy`, `bulk_add_facts.dfy` | `AddRange(IEnumerable)` |
| `list_indexer.dfy` | `ByIndex` |
| `refinement.dfy` | the abstract map and the `Valid` invariant |
| `round_trips.dfy` | operations undone by removal |
| `corrected.dfy` | the corrected operations and the counterexamples |
| `traces.dfy` | sequences of calls |

Two points about the code shape the model:

- The class implements `IDictionary<TKey,TValue>` (OrderedDictionary.cs:16).
  That interface's `Add` throws ArgumentException for a key that is already
  present. Here the exception comes only after the list, and for `Insert`
  also the table, have changed: see Findings.
- The pair enumerator (lines 265-268) throws `NotImplementedException`.
  `Keys` (line 246) and `CopyTo` (lines 238-239) enumerate the hash table,
  not `Items`, so their order is not guaranteed to be the list's order. The
  two orders agree while the dictionary has been built by `Add` alone. An
  interior `Insert` puts its key last in the table's order, and a `Remove`
  frees a table slot that a later key may reuse.

## Model

| member | source | states |
|---|---|---|
| `DotNet.DictionaryAdd` | SoftCircuits.OrderedDictionary/OrderedDictionary.cs:59 | `Dictionary.Add` throws an ArgumentException exactly when the key is present, and then leaves the table unchanged. Otherwise it binds the key and leaves every other binding alone. |
| `IndexLookup.ShiftUpFrom` | SoftCircuits.OrderedDictionary/OrderedDictionary.cs:297-301 | The renumbering pass keeps the same keys and their relative order. It frees position `index`. A key lands after `index` exactly when it was at or after it. |
| `IndexLookup.InsertIndexLookupItem` | SoftCircuits.OrderedDictionary/OrderedDictionary.cs:294-303 | The new key ends up bound to `index`, and no old key keeps that position. Relative order is kept. It throws exactly when the key was present, and even then the renumbering has been committed. |
| `IndexLookup.InsertIndexLookupItemMoves` | SoftCircuits.OrderedDictionary/OrderedDictionary.cs:297-301 | Every old key at or after `index` moves one place later and every other key stays put, whether or not the final add throws. |
| `IndexLookup.InsertIndexLookupItemWellFormed` | SoftCircuits.OrderedDictionary/OrderedDictionary.cs:294-303 | After the pass, positions are still distinct and address one more slot. |
| `IndexLookup.InsertIndexLookupItemDense` | SoftCircuits.OrderedDictionary/OrderedDictionary.cs:294-303 | A gap-free table stays gap-free, one slot larger, if and only if the key was fresh. |
| `IndexLookup.RemoveIndexLookupItem` | SoftCircuits.OrderedDictionary/OrderedDictionary.cs:277-287 | Drops exactly the keys recorded at `index` and keeps the relative order of the rest. Keys before `index` stay before it. |
| `IndexLookup.RemoveIndexLookupItemMoves` | SoftCircuits.OrderedDictionary/OrderedDictionary.cs:280-286 | Every surviving key after `index` moves one place earlier; the others stay put. |
| `IndexLookup.RemoveIndexLookupItemWellFormed` | SoftCircuits.OrderedDictionary/OrderedDictionary.cs:277-287 | Positions stay distinct and address one slot fewer. A gap-free table stays gap-free. |
| `IndexLookup.AppendThenRemove` | SoftCircuits.OrderedDictionary/OrderedDictionary.cs:277-287 | Removing the last position, just bound to a fresh key, gives back the original table. |
| `IndexLookup.InsertThenRemove` | SoftCircuits.OrderedDictionary/OrderedDictionary.cs:277-303 | Removing the position that `InsertIndexLookupItem` just filled with a fresh key gives back the original table. |
| `OrderedDictionary.Empty` | SoftCircuits.OrderedDictionary/OrderedDictionary.cs:30-35 | The new dictionary is valid, has no entries and is the empty map. |
| `OrderedDictionary.ContainsKey` | SoftCircuits.OrderedDictionary/OrderedDictionary.cs:157 | `ContainsKey` holds exactly when `IndexOf` finds a position for the key. |
| `OrderedDictionary.ContainsPair` | SoftCircuits.OrderedDictionary/OrderedDictionary.cs:165 | `Contains(pair)` holds exactly when `IndexOf` finds the pair's key, whatever the pair's value. |
| `Refinement.CountBoundsKeys` | SoftCircuits.OrderedDictionary/OrderedDictionary.cs:113 | `Count`, the length of the list, is never below the number of keys. It equals that number exactly on a valid dictionary, where it is the size of the abstract map. |
| `OrderedDictionary.IndexOf` | SoftCircuits.OrderedDictionary/OrderedDictionary.cs:174 | The result is -1 exactly for an absent key. For a present key it is the position recorded for it, between 0 and `Count - 1`. |
| `OrderedDictionary.Get` | SoftCircuits.OrderedDictionary/OrderedDictionary.cs:121 | Reading by key throws KeyNotFound exactly for an absent key. Otherwise it returns the value listed at the key's `IndexOf`. |
| `OrderedDictionary.TryGetValue` | SoftCircuits.OrderedDictionary/OrderedDictionary.cs:138-150 | Succeeds exactly for a present key. It agrees with the key indexer on both outcomes. |
| `OrderedDictionary.Add` | SoftCircuits.OrderedDictionary/OrderedDictionary.cs:55-60 | The list always grows by the value, even when the call throws. It throws exactly for a present key, and then the table is unchanged. On success the key sits at the old `Count`. Old keys never move. |
| `OrderedDictionary.Insert` | SoftCircuits.OrderedDictionary/OrderedDictionary.cs:96-108 | An index outside `0..Count` throws ArgumentOutOfRange and changes nothing. `Count` means `Add`; anything else means the interior branch. |
| `OrderedDictionary.InsertInterior` | SoftCircuits.OrderedDictionary/OrderedDictionary.cs:104-107 | The value goes into the list at `index` and every key at or after `index` moves one place later. Only then does the duplicate check throw. On success the new key sits at `index`. |
| `OrderedDictionary.Set` | SoftCircuits.OrderedDictionary/OrderedDictionary.cs:122-128 | Afterwards the key reads back the new value. For a present key, the table, the count and every other position are unchanged. For an absent key it is a successful `Add`. |
| `OrderedDictionary.RemoveEntryAt` | SoftCircuits.OrderedDictionary/OrderedDictionary.cs:209-210 | The value leaves the list. The keys recorded at that position go, and later keys move one place earlier. A valid dictionary stays valid. |
| `OrderedDictionary.Remove` | SoftCircuits.OrderedDictionary/OrderedDictionary.cs:181-190 | Reports true exactly when the key was present, and false leaves the dictionary as it was. On true, exactly that key goes, `Count` drops by one and later keys move one place earlier. Validity is kept. |
| `OrderedDictionary.RemoveAt` | SoftCircuits.OrderedDictionary/OrderedDictionary.cs:204-211 | Throws ArgumentOutOfRange exactly outside `0..Count-1`, and then changes nothing. Otherwise exactly the keys at that position go and later keys move one place earlier. Validity is kept. |
| `OrderedDictionary.Clear` | SoftCircuits.OrderedDictionary/OrderedDictionary.cs:216-220 | Leaves a valid empty dictionary, whatever state it started in. |
| `OrderedDictionary.Values` | SoftCircuits.OrderedDictionary/OrderedDictionary.cs:252 | Holds one value per position, and each key's value sits at that key's `IndexOf`. |
| `OrderedDictionary.Keys` | SoftCircuits.OrderedDictionary/OrderedDictionary.cs:246 | The keys are exactly the keys of the abstract map. On a valid dictionary there are `Count` of them. |
| `OrderedDictionary.CopyToChecks` | SoftCircuits.OrderedDictionary/OrderedDictionary.cs:229-236 | The copy is allowed exactly when the array exists, the offset is non-negative and the entries fit. A null array throws ArgumentNull, an offset outside the array throws ArgumentOutOfRange, and an array too short throws Argument. |
| `Refinement.ContainsKeyIsMember` | SoftCircuits.OrderedDictionary/OrderedDictionary.cs:157 | `ContainsKey` is membership in the abstract map. |
| `Refinement.ContainsPairIgnoresValue` | SoftCircuits.OrderedDictionary/OrderedDictionary.cs:165 | `Contains(pair)` holds for any value once the key is present. |
| `Refinement.GetIsLookup` | SoftCircuits.OrderedDictionary/OrderedDictionary.cs:121 | The key getter succeeds exactly on the abstract map's keys and returns the bound value. |
| `Refinement.AddRefinesMap` | SoftCircuits.OrderedDictionary/OrderedDictionary.cs:55-60 | `Add` of a fresh key extends the abstract map with that binding. |
| `Refinement.AddKeepsValid` | SoftCircuits.OrderedDictionary/OrderedDictionary.cs:55-60 | A valid dictionary stays valid under `Add` if and only if the key was fresh. |
| `Refinement.InsertPlacesValue` | SoftCircuits.OrderedDictionary/OrderedDictionary.cs:96-108 | An in-range `Insert` puts the value at `index` and shifts the later values by one, whatever the outcome. It throws ArgumentException exactly for a present key. On success the key's `IndexOf` is `index`. |
| `Refinement.InsertMovesKeys` | SoftCircuits.OrderedDictionary/OrderedDictionary.cs:96-108 | After an in-range `Insert`, keys at or after `index` sit one place later and earlier keys stay put, whatever the outcome. |
| `Refinement.InsertRefinesMap` | SoftCircuits.OrderedDictionary/OrderedDictionary.cs:96-108 | `Insert` of a fresh key at any valid position extends the abstract map with that binding. |
| `Refinement.InsertInteriorRefinesMap` | SoftCircuits.OrderedDictionary/OrderedDictionary.cs:104-107 | The interior branch, with a fresh key, extends the abstract map with that binding. |
| `Refinement.InsertInteriorValueOf` | SoftCircuits.OrderedDictionary/OrderedDictionary.cs:104-107 | After the interior branch, each key still reaches its own value, and the new key reaches the new value. |
| `Refinement.InsertKeepsValid` | SoftCircuits.OrderedDictionary/OrderedDictionary.cs:96-108 | A valid dictionary stays valid under an in-range `Insert` if and only if the key was fresh. |
| `Refinement.SetRefinesMap` | SoftCircuits.OrderedDictionary/OrderedDictionary.cs:122-128 | The key setter rebinds the key in the abstract map, whether or not it was present. |
| `Refinement.SetKeepsValid` | SoftCircuits.OrderedDictionary/OrderedDictionary.cs:122-128 | The key setter keeps a valid dictionary valid. |
| `Refinement.RemoveEntryAtRefinesMap` | SoftCircuits.OrderedDictionary/OrderedDictionary.cs:209-210 | Removing a position unbinds exactly the keys recorded there. Every other key keeps its value. |
| `Refinement.RemoveRefinesMap` | SoftCircuits.OrderedDictionary/OrderedDictionary.cs:181-190 | `Remove(key)` removes exactly that key from the abstract map. |
| `Refinement.RemoveAtRefinesMap` | SoftCircuits.OrderedDictionary/OrderedDictionary.cs:204-211 | An in-range `RemoveAt` unbinds exactly the keys recorded at that position. |
| `Refinement.RemoveAtIsRemove` | SoftCircuits.OrderedDictionary/OrderedDictionary.cs:204-211 | On a valid dictionary, exactly one key sits at each position, and `RemoveAt` is `Remove` of that key. |
| `Refinement.ValuesAreBound` | SoftCircuits.OrderedDictionary/OrderedDictionary.cs:252 | On a valid dictionary, every listed value is the value of the key recorded at its position. |
| `BulkAdd.AddRange` | SoftCircuits.OrderedDictionary/OrderedDictionary.cs:72-76 | Returns exactly when no pair clashes with a present key or an earlier pair. Otherwise it throws ArgumentException after adding one value per pair up to and including the first clash. |
| `BulkAddFacts.AddRangeAppendsPrefix` | SoftCircuits.OrderedDictionary/OrderedDictionary.cs:72-76 | Whatever the outcome, the list gained the values of the first pairs, in order. |
| `BulkAddFacts.AddRangeAppends` | SoftCircuits.OrderedDictionary/OrderedDictionary.cs:72-76 | When the call returns, every pair's value was appended, in order. |
| `BulkAddFacts.AddRangeLeavesOrphan` | SoftCircuits.OrderedDictionary/OrderedDictionary.cs:72-76 | When it throws, the values up to and including the clashing pair's were appended. |
| `BulkAddFacts.AddRangeKeepsPositions` | SoftCircuits.OrderedDictionary/OrderedDictionary.cs:72-76 | Whatever the outcome, keys present before the call keep their positions. |
| `BulkAddFacts.AddRangePlacesKeys` | SoftCircuits.OrderedDictionary/OrderedDictionary.cs:72-76 | Whatever the outcome, the key of each pair before the first clash sits at position `Count + j`, where `j` is the pair's place. When the call returns, that holds for every pair. |
| `BulkAddFacts.AddRangeReturnsIffFresh` | SoftCircuits.OrderedDictionary/OrderedDictionary.cs:72-76 | Returns if and only if the pairs' keys are distinct from one another and from the present keys. |
| `BulkAddFacts.AddRangeStopsAtDuplicate` | SoftCircuits.OrderedDictionary/OrderedDictionary.cs:72-76 | A throw happens at the first pair whose key is not fresh. The pairs before it were fresh. |
| `BulkAddFacts.AddRangeKeepsValid` | SoftCircuits.OrderedDictionary/OrderedDictionary.cs:72-76 | A valid dictionary stays valid if and only if the call returns. |
| `RoundTrips.AddThenRemove` | SoftCircuits.OrderedDictionary/OrderedDictionary.cs:55-60 | `Remove` of a freshly added key reports true and gives back the original dictionary. |
| `RoundTrips.InsertThenRemoveAt` | SoftCircuits.OrderedDictionary/OrderedDictionary.cs:96-108 | `RemoveAt(index)` after a fresh `Insert(index, ...)` gives back the original dictionary. |
| `RoundTrips.InteriorThenRemoveEntryAt` | SoftCircuits.OrderedDictionary/OrderedDictionary.cs:104-107 | The interior branch of `Insert` with a fresh key, followed by removing the entry at `index`, gives back the original dictionary. |
| `RoundTrips.SetSameValue` | SoftCircuits.OrderedDictionary/OrderedDictionary.cs:122-128 | Setting a present key to the value it has changes nothing. |
| `ListIndexer.GetAt` | SoftCircuits.OrderedDictionary/ListIndexer.cs:26 | Reading by position throws ArgumentOutOfRange exactly outside `0..Count-1`, and otherwise returns the value listed there. |
| `ListIndexer.SetAt` | SoftCircuits.OrderedDictionary/ListIndexer.cs:27 | Writing by position throws exactly outside `0..Count-1` and then changes nothing. Otherwise it replaces that one value and leaves the table and all other values alone. |
| `ListIndexer.SetAtKeepsInvariants` | SoftCircuits.OrderedDictionary/ListIndexer.cs:27 | Writing by position preserves both invariants. |
| `ListIndexer.GetAtIndexOf` | SoftCircuits.OrderedDictionary/ListIndexer.cs:24-28 | Reading at a key's `IndexOf` is reading that key. |
| `ListIndexer.SetAtIsSetByKey` | SoftCircuits.OrderedDictionary/ListIndexer.cs:27 | On a valid dictionary, writing at a position is the key setter on the key recorded there. |
| `Corrected.AddChecked` | SoftCircuits.OrderedDictionary/OrderedDictionary.cs:55-60 | A present key throws ArgumentException and leaves the dictionary as it was. Otherwise the call is `Add`. |
| `Corrected.InsertChecked` | SoftCircuits.OrderedDictionary/OrderedDictionary.cs:96-108 | A bad index or a present key throws and changes nothing. Otherwise the call is `Insert`. |
| `Corrected.AddRangeChecked` | SoftCircuits.OrderedDictionary/OrderedDictionary.cs:72-76 | Returns exactly when no pair clashes. The count grows by exactly the number of pairs before the first clash, so no orphan is left. |
| `Corrected.AddRangeCheckedKeepsPrefix` | SoftCircuits.OrderedDictionary/OrderedDictionary.cs:72-76 | Whatever the outcome, the corrected call ends in the state the written `AddRange` reaches on the pairs before the first clash. On those pairs the written call returns. |
| `Corrected.AddRangeCheckedCommitsPrefix` | SoftCircuits.OrderedDictionary/OrderedDictionary.cs:72-76 | Whatever the outcome, the corrected call appended the values of the pairs before the first clash, in order, and put their keys at `Count + j`. Keys present before keep their positions. |
| `Corrected.AddCheckedKeepsValid` | SoftCircuits.OrderedDictionary/OrderedDictionary.cs:55-60 | The corrected `Add` keeps validity on every input and acts on the abstract map atomically. |
| `Corrected.InsertCheckedKeepsValid` | SoftCircuits.OrderedDictionary/OrderedDictionary.cs:96-108 | The corrected `Insert` keeps validity on every input and acts on the abstract map atomically. |
| `Corrected.AddRangeCheckedAgrees` | SoftCircuits.OrderedDictionary/OrderedDictionary.cs:72-76 | Whenever the corrected `AddRange` returns, it did exactly what the written one does. |
| `Corrected.AddRangeCheckedKeepsValid` | SoftCircuits.OrderedDictionary/OrderedDictionary.cs:72-76 | The corrected `AddRange` keeps validity on every input. |
| `Corrected.DuplicateAddLeavesOrphan` | SoftCircuits.OrderedDictionary/OrderedDictionary.cs:55-60 | Adding one key twice throws but leaves two values and one key. `Values` reports the orphan, and the dictionary is no longer valid. |
| `Corrected.DuplicateInsertLeavesOrphan` | SoftCircuits.OrderedDictionary/OrderedDictionary.cs:294-303 | Inserting a present key at position 0 throws after both keys have been renumbered. No key reaches position 0, and the dictionary is no longer valid. |
| `Traces.Apply` | SoftCircuits.OrderedDictionary/OrderedDictionary.cs:55-220 | Every mutating call as written preserves well-formedness, including when it throws. |
| `Traces.ApplyKeepsValid` | SoftCircuits.OrderedDictionary/OrderedDictionary.cs:55-220 | A call as written keeps a valid dictionary valid if and only if it does not end in the duplicate-key ArgumentException. |
| `Traces.ApplyCheckedKeepsValid` | SoftCircuits.OrderedDictionary/OrderedDictionary.cs:55-220 | Every corrected call keeps a valid dictionary valid. |
| `Traces.ApplyCheckedAgrees` | SoftCircuits.OrderedDictionary/OrderedDictionary.cs:55-220 | Unless a call meets a duplicate key, the corrected and written versions behave the same. |
| `Traces.RunKeepsValid` | SoftCircuits.OrderedDictionary/OrderedDictionary.cs:55-220 | A run of calls as written that never meets a duplicate key ends valid. |
| `Traces.RunCheckedKeepsValid` | SoftCircuits.OrderedDictionary/OrderedDictionary.cs:55-220 | A run of corrected calls always ends valid. |
| `Traces.RunCheckedAgrees` | SoftCircuits.OrderedDictionary/OrderedDictionary.cs:55-220 | On a run that never meets a duplicate key, the corrected calls produce the same state and outcomes as the calls as written. |

## Left out

- The comparer constructor (OrderedDictionary.cs:43-48) and custom key equality. Keys are a Dafny equality type, so a comparer is assumed to act on canonical representatives.
- BulkAdd.AddRange: a sequence of pairs cannot be null and never fails part-way. In the source (lines 72-76) there is no null check: a null `collection` throws NullReferenceException at line 74, before anything changes. A lazy source whose enumerator throws part-way leaves the earlier pairs committed, just like a clash. Neither path is modelled.
- `AddRange(OrderedDictionary)` (lines 84-88): it adds in the other dictionary's hash-table order, which .NET does not specify.
- OrderedDictionary.Keys: modelled as a set. The list the source returns follows hash-table order, which .NET does not specify.
- OrderedDictionary.CopyToChecks: models only the argument checks. The copy loop (lines 238-239) writes pairs in hash-table order, which .NET does not specify.
- The pair enumerator (lines 265-268) throws `NotImplementedException`. The value enumerators (lines 261, 263) are `Values`.
- The `KeyValuePair` overloads `Add` (line 66) and `Remove` (line 198) only forward to the key overloads.
- `IsReadOnly` (line 257) is a constant.
- OrderedDictionary.TryGetValue: `None` stands for `false` together with the default value of `TValue`.
- OrderedDictionary.Insert: its own contract states only the range check and the branch taken. What it does to values and keys is stated in `Refinement.InsertPlacesValue`, `InsertMovesKeys`, `InsertRefinesMap` and `InsertKeepsValid`.
- OrderedDictionary.Get: requires `WellFormed`. On an ill-formed state the C# indexer could throw ArgumentOutOfRange instead, but no sequence of calls reaches such a state (`Traces.Apply`).
- OrderedDictionary.CopyToChecks: `index + Count` is unbounded here. In the source (line 235) it is a 32-bit sum, and it wraps whenever `index + Count > int.MaxValue`. `index` may be as large as `array.Length`, so near-maximal arrays need only a few dozen entries. The check then passes, and the loop at lines 238-239 writes part of the copy before throwing IndexOutOfRangeException. The model returns `Threw(Argument)` for those inputs instead.
- 32-bit `int` for `Count` (line 113): unbounded here. The list cannot hold more than `int.MaxValue` values.
- Null keys: `where TKey : notnull` (line 16) is only checked at compile time. At run time, `Add(null, v)` appends to `Items` (line 58) and then `Dictionary.Add` throws ArgumentNullException (line 59), leaving an orphan value just like a duplicate key. An interior `Insert` with a null key renumbers the table (lines 105-106, 297-301) before throwing at line 302. The key getter and setter, `Remove`, `ContainsKey`, `TryGetValue` and `IndexOf` throw ArgumentNullException on a null key. The model's key type has no null value, so none of these paths are modelled.
- The `ByIndex` property is modelled as the functions of `ListIndexer` on the shared state. The identity of the object it returns is not modelled.
- `OrderedDictionaryExtensions` (building a dictionary from a sequence) is a loop of `Add` calls, covered by `BulkAdd.AddRange`.
- Thread safety, and enumerator invalidation after mutation.

## Findings

| source | as written | input that shows it | evidently intended | confidence | as-written member | corrected member |
|---|---|---|---|---|---|---|
| SoftCircuits.OrderedDictionary/OrderedDictionary.cs:55-60 | `Items.Add(value)` runs before `IndexLookup.Add(key, index)` checks the key | `Add(k, a)` then `Add(k, b)`: the second throws ArgumentException, but `Count` is 2, `Values` is `[a, b]`, and one key remains | a duplicate key throws with the dictionary unchanged | not executed | `Corrected.DuplicateAddLeavesOrphan` | `Corrected.AddChecked` |
| SoftCircuits.OrderedDictionary/OrderedDictionary.cs:96-108 | `Items.Insert` and the renumbering pass run before `IndexLookup.Add` checks the key | from `{k: a, o: b}`, `Insert(0, k, c)` throws ArgumentException, leaving `Values == [c, a, b]`, `k` at 1, `o` at 2, and no key at 0 | a duplicate key throws with the list and the table unchanged | not executed | `Corrected.DuplicateInsertLeavesOrphan` | `Corrected.InsertChecked` |
| SoftCircuits.OrderedDictionary/OrderedDictionary.cs:72-76 | each pair goes through the `Add` above, so a clashing pair leaves its orphan value | `AddRange([(k, a), (k, b)])` on an empty dictionary throws with `Values == [a, b]` and one key | stop at the first clash, with the earlier pairs kept and no orphan | not executed | `BulkAddFacts.AddRangeLeavesOrphan` | `Corrected.AddRangeChecked` (with `Corrected.AddRangeCheckedCommitsPrefix`) |

Lemmas about the corrected definitions:

- `Corrected.AddCheckedKeepsValid`, `InsertCheckedKeepsValid` and `AddRangeCheckedKeepsValid` show that the corrected definitions preserve `Valid`.
- `Traces.RunCheckedKeepsValid` shows that any run of corrected calls stays valid.
- `Traces.RunCheckedAgrees` shows that the corrected calls agree with the calls as written whenever no duplicate key is met.
