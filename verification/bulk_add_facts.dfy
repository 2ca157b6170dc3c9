/** What a completed or an interrupted `AddRange` leaves behind. */
module BulkAddFacts {
  import opened DotNet
  import opened OrderedDictionary
  import opened Refinement
  import opened BulkAdd

  /** Whatever the outcome, `AddRange` appended the values of the first
      `n` pairs, in order, where `n` is the number of values it appended. */
  lemma {:induction false} AddRangeAppendsPrefix<K, V>(d: Dict<K, V>, pairs: seq<(K, V)>)
    requires WellFormed(d)
    ensures var r := AddRange(d, pairs);
      r.state.items == d.items + ValuesOf(pairs)[..Count(r.state) - Count(d)]
    decreases |pairs|
  {
    if |pairs| > 0 {
      var first := Add(d, pairs[0].0, pairs[0].1);
      var n := Count(AddRange(d, pairs).state) - Count(d);
      ConsPrefix(pairs[0].1, ValuesOf(pairs[1..]), n);
      if first.result.Returned? {
        AddRangeAppendsPrefix(first.state, pairs[1..]);
        SeqAppendAssoc(d.items, pairs[0].1, ValuesOf(pairs[1..])[..n - 1]);
      }
    }
  }

  /** Taking a prefix of a sequence with a given head. */
  lemma ConsPrefix<V>(x: V, t: seq<V>, n: int)
    requires 1 <= n <= |t| + 1
    ensures ([x] + t)[..n] == [x] + t[..n - 1]
  {
    assert ([x] + t)[..n] == [x] + t[..n - 1];
  }

  /** Concatenation regrouped around a single element. */
  lemma SeqAppendAssoc<V>(a: seq<V>, x: V, c: seq<V>)
    ensures (a + [x]) + c == a + ([x] + c)
  {
  }

  /** When `AddRange` returns, all the values were appended in order. */
  lemma AddRangeAppends<K, V>(d: Dict<K, V>, pairs: seq<(K, V)>)
    requires WellFormed(d)
    ensures AddRange(d, pairs).result.Returned? ==>
              AddRange(d, pairs).state.items == d.items + ValuesOf(pairs)
  {
    AddRangeAppendsPrefix(d, pairs);
    assert ValuesOf(pairs)[..|pairs|] == ValuesOf(pairs);
  }

  /** When `AddRange` throws, the values of the pairs up to and including
      the clashing one were appended: the last of them is the orphan. */
  lemma AddRangeLeavesOrphan<K, V>(d: Dict<K, V>, pairs: seq<(K, V)>)
    requires WellFormed(d)
    ensures var r := AddRange(d, pairs);
      r.result.Threw? ==>
        r.state.items == d.items + ValuesOf(pairs)[..FirstClash(d.lookup.Keys, pairs) + 1]
  {
    AddRangeAppendsPrefix(d, pairs);
  }

  /** Whatever the outcome, the keys present before `AddRange` keep their
      positions. */
  lemma {:induction false} AddRangeKeepsPositions<K, V>(d: Dict<K, V>, pairs: seq<(K, V)>)
    requires WellFormed(d)
    ensures forall k :: k in d.lookup ==> IndexOf(AddRange(d, pairs).state, k) == IndexOf(d, k)
    decreases |pairs|
  {
    if |pairs| > 0 {
      var first := Add(d, pairs[0].0, pairs[0].1);
      if first.result.Returned? {
        AddRangeKeepsPositions(first.state, pairs[1..]);
      }
    }
  }

  /** Whatever the outcome, the key of each pair before the first clash
      sits at `Count + j`, where its value was appended; when `AddRange`
      returns that holds of every pair. */
  lemma {:induction false} AddRangePlacesKeys<K, V>(d: Dict<K, V>, pairs: seq<(K, V)>)
    requires WellFormed(d)
    ensures forall j :: 0 <= j < FirstClash(d.lookup.Keys, pairs) ==>
              IndexOf(AddRange(d, pairs).state, pairs[j].0) == Count(d) + j
    ensures AddRange(d, pairs).result.Returned? ==>
              forall j :: 0 <= j < |pairs| ==> IndexOf(AddRange(d, pairs).state, pairs[j].0) == Count(d) + j
    decreases |pairs|
  {
    var r := AddRange(d, pairs);
    if |pairs| > 0 && pairs[0].0 !in d.lookup {
      var s := Add(d, pairs[0].0, pairs[0].1).state;
      var rest := pairs[1..];
      assert r == AddRange(s, rest);
      assert s.lookup.Keys == d.lookup.Keys + {pairs[0].0};
      AddRangePlacesKeys(s, rest);
      AddRangeKeepsPositions(s, rest);
      forall j | 0 <= j < FirstClash(d.lookup.Keys, pairs)
        ensures IndexOf(r.state, pairs[j].0) == Count(d) + j
      {
        if j > 0 {
          assert pairs[j] == rest[j - 1];
        }
      }
    }
  }

  /** `AddRange` returns exactly when the pairs' keys are fresh: distinct
      from one another and from the keys already present. */
  lemma AddRangeReturnsIffFresh<K, V>(d: Dict<K, V>, pairs: seq<(K, V)>)
    requires WellFormed(d)
    ensures AddRange(d, pairs).result.Returned? <==> FreshPairs(d.lookup.Keys, pairs)
  {
    FreshPairsNoClash(d.lookup.Keys, pairs);
  }

  /** When `AddRange` throws, it was at the first pair whose key was not
      fresh: the `j` pairs before it were fresh and the `j+1`-th was not,
      where `j` is the number of entries added in full. */
  lemma AddRangeStopsAtDuplicate<K, V>(d: Dict<K, V>, pairs: seq<(K, V)>)
    requires WellFormed(d)
    ensures var r := AddRange(d, pairs);
      r.result.Threw? ==>
        var j := Count(r.state) - Count(d) - 1;
        && 0 <= j < |pairs|
        && FreshPairs(d.lookup.Keys, pairs[..j])
        && !FreshPairs(d.lookup.Keys, pairs[..j + 1])
  {
    FirstClashIsFirst(d.lookup.Keys, pairs);
  }

  /** A valid dictionary stays valid under `AddRange` exactly when the
      call returns: a clash always leaves its orphan value behind. */
  lemma {:induction false} AddRangeKeepsValid<K, V>(d: Dict<K, V>, pairs: seq<(K, V)>)
    requires Valid(d)
    ensures Valid(AddRange(d, pairs).state) <==> AddRange(d, pairs).result.Returned?
    decreases |pairs|
  {
    if |pairs| > 0 {
      var first := Add(d, pairs[0].0, pairs[0].1);
      AddKeepsValid(d, pairs[0].0, pairs[0].1);
      if first.result.Returned? {
        AddRangeKeepsValid(first.state, pairs[1..]);
      }
    }
  }
}
