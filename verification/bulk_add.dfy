/** `AddRange(IEnumerable<KeyValuePair>)`: a loop of `Add` calls over a
    sequence of pairs that stops at the first exception. */
module BulkAdd {
  import opened DotNet
  import opened OrderedDictionary

  /** The keys of `pairs` are pairwise distinct and none is in `keys`. */
  ghost predicate FreshPairs<K, V>(keys: set<K>, pairs: seq<(K, V)>) {
    && (forall j :: 0 <= j < |pairs| ==> pairs[j].0 !in keys)
    && (forall i, j :: 0 <= i < j < |pairs| ==> pairs[i].0 != pairs[j].0)
  }

  /** The values of `pairs`, in order. */
  function ValuesOf<K, V>(pairs: seq<(K, V)>): (r: seq<V>)
    ensures |r| == |pairs|
    ensures forall j :: 0 <= j < |pairs| ==> r[j] == pairs[j].1
  {
    if |pairs| == 0 then [] else [pairs[0].1] + ValuesOf(pairs[1..])
  }

  /** The position of the first pair whose key is already in `keys` or
      repeats an earlier pair's key; `|pairs|` when there is none. */
  function FirstClash<K, V>(keys: set<K>, pairs: seq<(K, V)>): (n: nat)
    ensures n <= |pairs|
    decreases |pairs|
  {
    if |pairs| == 0 then 0
    else if pairs[0].0 in keys then 0
    else 1 + FirstClash(keys + {pairs[0].0}, pairs[1..])
  }

  /** Fresh pairs are a fresh first pair followed by pairs fresh for the
      keys grown by the first one. */
  lemma FreshPairsCons<K, V>(keys: set<K>, pairs: seq<(K, V)>)
    requires |pairs| > 0
    ensures FreshPairs(keys, pairs) <==>
              pairs[0].0 !in keys && FreshPairs(keys + {pairs[0].0}, pairs[1..])
  {
    if pairs[0].0 !in keys && FreshPairs(keys + {pairs[0].0}, pairs[1..]) {
      forall i, j | 0 <= i < j < |pairs|
        ensures pairs[i].0 != pairs[j].0
      {
        if i > 0 {
          assert pairs[i].0 == pairs[1..][i - 1].0;
        }
        assert pairs[j].0 == pairs[1..][j - 1].0;
      }
    }
  }

  /** `FirstClash` finds the first clash: the pairs before it are fresh, and
      adding the pair at it makes them not fresh. */
  lemma {:induction false} FirstClashIsFirst<K, V>(keys: set<K>, pairs: seq<(K, V)>)
    ensures FreshPairs(keys, pairs[..FirstClash(keys, pairs)])
    ensures FirstClash(keys, pairs) < |pairs| ==> !FreshPairs(keys, pairs[..FirstClash(keys, pairs) + 1])
    decreases |pairs|
  {
    if |pairs| > 0 {
      var n := FirstClash(keys, pairs);
      if pairs[0].0 in keys {
        assert pairs[..1] == [pairs[0]];
      } else {
        var keys' := keys + {pairs[0].0};
        FirstClashIsFirst(keys', pairs[1..]);
        assert pairs[..n][1..] == pairs[1..][..n - 1];
        FreshPairsCons(keys, pairs[..n]);
        if n < |pairs| {
          assert pairs[..n + 1][1..] == pairs[1..][..n];
          FreshPairsCons(keys, pairs[..n + 1]);
        }
      }
    }
  }

  /** Pairs are fresh exactly when there is no clash among them. */
  lemma FreshPairsNoClash<K, V>(keys: set<K>, pairs: seq<(K, V)>)
    ensures FreshPairs(keys, pairs) <==> FirstClash(keys, pairs) == |pairs|
  {
    FirstClashIsFirst(keys, pairs);
    var n := FirstClash(keys, pairs);
    if n == |pairs| {
      assert pairs[..n] == pairs;
    } else {
      FreshPrefix(keys, pairs, n + 1);
    }
  }

  /** A prefix of fresh pairs is fresh. */
  lemma FreshPrefix<K, V>(keys: set<K>, pairs: seq<(K, V)>, m: nat)
    requires m <= |pairs|
    ensures FreshPairs(keys, pairs) ==> FreshPairs(keys, pairs[..m])
  {
  }

  /** `AddRange`: `Add` each pair in turn. It returns exactly when no pair
      clashes; the first clash ends the loop with an ArgumentException
      after its value has been appended, keeping the earlier additions. */
  function AddRange<K, V>(d: Dict<K, V>, pairs: seq<(K, V)>): (r: Step<Dict<K, V>, ()>)
    requires WellFormed(d)
    ensures WellFormed(r.state)
    ensures r.result.Returned? <==> FirstClash(d.lookup.Keys, pairs) == |pairs|
    ensures r.result.Returned? ==> Count(r.state) == Count(d) + |pairs|
    ensures r.result.Threw? ==>
              && r.result.exception == Argument
              && Count(r.state) == Count(d) + FirstClash(d.lookup.Keys, pairs) + 1
    decreases |pairs|
  {
    if |pairs| == 0 then
      Step(d, Returned(()))
    else
      var s := Add(d, pairs[0].0, pairs[0].1);
      if s.result.Threw? then s else AddRange(s.state, pairs[1..])
  }
}
