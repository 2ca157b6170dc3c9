/** `Add` and `Insert` as evidently intended: the key is checked before
    anything changes, so a duplicate key throws with the dictionary as it
    was. Beside them, concrete runs of the operations as written that
    leave a value no key reaches. */
module Corrected {
  import opened DotNet
  import opened IndexLookup
  import opened OrderedDictionary
  import opened Refinement
  import opened BulkAdd
  import opened BulkAddFacts

  /** `Add` that rejects a present key before appending. */
  function AddChecked<K, V>(d: Dict<K, V>, key: K, value: V): (r: Step<Dict<K, V>, ()>)
    requires WellFormed(d)
    ensures WellFormed(r.state)
    ensures r.result.Threw? <==> ContainsKey(d, key)
    ensures r.result.Threw? ==> r == Step(d, Threw(Argument))
    ensures r.result.Returned? ==> r == Add(d, key, value)
  {
    if key in d.lookup then Step(d, Threw(Argument)) else Add(d, key, value)
  }

  /** `Insert` that rejects a present key before touching the list. */
  function InsertChecked<K, V>(d: Dict<K, V>, index: int, key: K, value: V): (r: Step<Dict<K, V>, ()>)
    requires WellFormed(d)
    ensures WellFormed(r.state)
    ensures !(0 <= index <= Count(d)) ==> r == Step(d, Threw(ArgumentOutOfRange))
    ensures 0 <= index <= Count(d) && ContainsKey(d, key) ==> r == Step(d, Threw(Argument))
    ensures r.result.Returned? <==> 0 <= index <= Count(d) && !ContainsKey(d, key)
    ensures r.result.Returned? ==> r == Insert(d, index, key, value)
  {
    if index < 0 || index > |d.items| then Step(d, Threw(ArgumentOutOfRange))
    else if key in d.lookup then Step(d, Threw(Argument))
    else Insert(d, index, key, value)
  }

  /** `AddRange` built on the corrected `Add`: it stops at the first clash
      with the earlier pairs added and no orphan. */
  function AddRangeChecked<K, V>(d: Dict<K, V>, pairs: seq<(K, V)>): (r: Step<Dict<K, V>, ()>)
    requires WellFormed(d)
    ensures WellFormed(r.state)
    ensures r.result.Returned? <==> FirstClash(d.lookup.Keys, pairs) == |pairs|
    ensures Count(r.state) == Count(d) + FirstClash(d.lookup.Keys, pairs)
    ensures r.result.Threw? ==> r.result.exception == Argument
    decreases |pairs|
  {
    if |pairs| == 0 then
      Step(d, Returned(()))
    else
      var s := AddChecked(d, pairs[0].0, pairs[0].1);
      if s.result.Threw? then s else AddRangeChecked(s.state, pairs[1..])
  }

  /** The corrected `Add` keeps a valid dictionary valid on every input and
      acts on the abstract map atomically: a duplicate leaves it unchanged,
      a fresh key extends it. */
  lemma AddCheckedKeepsValid<K, V>(d: Dict<K, V>, key: K, value: V)
    requires Valid(d)
    ensures Valid(AddChecked(d, key, value).state)
    ensures AsMap(AddChecked(d, key, value).state) ==
              if ContainsKey(d, key) then AsMap(d) else AsMap(d)[key := value]
  {
    if !ContainsKey(d, key) {
      AddKeepsValid(d, key, value);
      AddRefinesMap(d, key, value);
    }
  }

  /** The corrected `Insert` keeps a valid dictionary valid on every input
      and acts on the abstract map atomically. */
  lemma InsertCheckedKeepsValid<K, V>(d: Dict<K, V>, index: int, key: K, value: V)
    requires Valid(d)
    ensures Valid(InsertChecked(d, index, key, value).state)
    ensures AsMap(InsertChecked(d, index, key, value).state) ==
              if 0 <= index <= Count(d) && !ContainsKey(d, key) then AsMap(d)[key := value] else AsMap(d)
  {
    if 0 <= index <= Count(d) && !ContainsKey(d, key) {
      InsertKeepsValid(d, index, key, value);
      InsertRefinesMap(d, index, key, value);
    }
  }

  /** When the corrected `AddRange` returns it did what `AddRange` does. */
  lemma {:induction false} AddRangeCheckedAgrees<K, V>(d: Dict<K, V>, pairs: seq<(K, V)>)
    requires WellFormed(d)
    ensures AddRangeChecked(d, pairs).result.Returned? ==> AddRangeChecked(d, pairs) == AddRange(d, pairs)
    decreases |pairs|
  {
    if |pairs| > 0 {
      var first := AddChecked(d, pairs[0].0, pairs[0].1);
      if first.result.Returned? {
        AddRangeCheckedAgrees(first.state, pairs[1..]);
      }
    }
  }

  /** The corrected `AddRange` keeps a valid dictionary valid on every input. */
  lemma {:induction false} AddRangeCheckedKeepsValid<K, V>(d: Dict<K, V>, pairs: seq<(K, V)>)
    requires Valid(d)
    ensures Valid(AddRangeChecked(d, pairs).state)
    decreases |pairs|
  {
    if |pairs| > 0 {
      var first := AddChecked(d, pairs[0].0, pairs[0].1);
      if first.result.Returned? {
        AddKeepsValid(d, pairs[0].0, pairs[0].1);
        AddRangeCheckedKeepsValid(first.state, pairs[1..]);
      }
    }
  }

  /** Whatever the outcome, the corrected `AddRange` ends in the state the
      written `AddRange` reaches on the pairs before the first clash, and
      on those pairs the written one returns. */
  lemma {:induction false} AddRangeCheckedKeepsPrefix<K, V>(d: Dict<K, V>, pairs: seq<(K, V)>)
    requires WellFormed(d)
    ensures var n := FirstClash(d.lookup.Keys, pairs);
      && AddRange(d, pairs[..n]).result.Returned?
      && AddRangeChecked(d, pairs).state == AddRange(d, pairs[..n]).state
    decreases |pairs|
  {
    if |pairs| > 0 && pairs[0].0 !in d.lookup {
      var n := FirstClash(d.lookup.Keys, pairs);
      var s := Add(d, pairs[0].0, pairs[0].1).state;
      AddRangeCheckedKeepsPrefix(s, pairs[1..]);
      assert s.lookup.Keys == d.lookup.Keys + {pairs[0].0};
      assert pairs[..n][0] == pairs[0];
      assert pairs[..n][1..] == pairs[1..][..n - 1];
    }
  }

  /** Whatever the outcome, the corrected `AddRange` has committed exactly
      the pairs before the first clash: their values appended in order,
      the `j`-th key at `Count + j`, and the keys present before left where
      they were. */
  lemma AddRangeCheckedCommitsPrefix<K, V>(d: Dict<K, V>, pairs: seq<(K, V)>)
    requires WellFormed(d)
    ensures var r := AddRangeChecked(d, pairs).state;
      var n := FirstClash(d.lookup.Keys, pairs);
      && r.items == d.items + ValuesOf(pairs)[..n]
      && (forall j :: 0 <= j < n ==> IndexOf(r, pairs[j].0) == Count(d) + j)
      && (forall k :: k in d.lookup ==> IndexOf(r, k) == IndexOf(d, k))
  {
    var n := FirstClash(d.lookup.Keys, pairs);
    var prefix := pairs[..n];
    AddRangeCheckedKeepsPrefix(d, pairs);
    AddRangeAppends(d, prefix);
    AddRangePlacesKeys(d, prefix);
    AddRangeKeepsPositions(d, prefix);
    assert ValuesOf(prefix) == ValuesOf(pairs)[..n];
    assert forall j :: 0 <= j < n ==> prefix[j] == pairs[j];
  }

  /** As written, adding a key twice throws but leaves the second value in
      the list with no key: two values, one key, and `Values` reports the
      orphan. */
  lemma DuplicateAddLeavesOrphan<K, V>(key: K, first: V, second: V)
    ensures var d := Add(Empty<K, V>(), key, first).state;
      var r := Add(d, key, second);
      && r.result == Threw(Argument)
      && Count(r.state) == 2
      && Keys(r.state) == {key}
      && Values(r.state) == [first, second]
      && !Valid(r.state)
  {
    var d := Add(Empty<K, V>(), key, first).state;
    assert d == Dict([first], map[key := 0]);
    var r := Add(d, key, second);
    assert r.state == Dict([first, second], map[key := 0]);
  }

  /** Two fresh keys added in turn to the empty dictionary. */
  lemma TwoEntries<K, V>(key: K, other: K, first: V, second: V)
    requires key != other
    ensures Add(Add(Empty<K, V>(), key, first).state, other, second).state ==
              Dict([first, second], map[key := 0, other := 1])
  {
    assert Add(Empty<K, V>(), key, first).state == Dict([first], map[key := 0]);
  }

  /** As written, inserting a present key at position 0 throws after the
      list and the table have both moved: the new value sits at position 0
      with no key, and the old value has moved to position 1. */
  lemma DuplicateInsertLeavesOrphan<K, V>(key: K, other: K, first: V, second: V, third: V)
    requires key != other
    ensures var d := Add(Add(Empty<K, V>(), key, first).state, other, second).state;
      var r := Insert(d, 0, key, third);
      && r.result == Threw(Argument)
      && Values(r.state) == [third, first, second]
      && IndexOf(r.state, key) == 1
      && IndexOf(r.state, other) == 2
      && KeysAt(r.state.lookup, 0) == {}
      && !Valid(r.state)
  {
    TwoEntries(key, other, first, second);
    InsertPresentAtFront(key, other, first, second, third);
    OrphanAtFront(key, other, first, second, third);
  }

  /** The duplicate `Insert` at position 0, step by step. */
  lemma InsertPresentAtFront<K, V>(key: K, other: K, first: V, second: V, third: V)
    requires key != other
    ensures Insert(Dict([first, second], map[key := 0, other := 1]), 0, key, third) ==
              Step(Dict([third, first, second], map[key := 1, other := 2]), Threw(Argument))
  {
    var d := Dict([first, second], map[key := 0, other := 1]);
    assert ShiftUpFrom(d.lookup, 0) == map[key := 1, other := 2];
    assert d.items[..0] + [third] + d.items[0..] == [third, first, second];
  }

  /** The state the duplicate `Insert` leaves: no key at position 0. */
  lemma OrphanAtFront<K, V>(key: K, other: K, first: V, second: V, third: V)
    requires key != other
    ensures var r := Dict([third, first, second], map[key := 1, other := 2]);
      && WellFormed(r)
      && KeysAt(r.lookup, 0) == {}
      && !Valid(r)
  {
  }
}
