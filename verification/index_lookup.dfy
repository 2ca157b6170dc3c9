/** The key-to-position table (`IndexLookup`) of the ordered dictionary and
    the two renumbering passes that keep it in step with the positional list:
    `InsertIndexLookupItem` after an insertion into the list and
    `RemoveIndexLookupItem` after a removal from it. Both passes walk a
    snapshot of the table, so each is a single map comprehension here. */
module IndexLookup {
  import opened DotNet

  /** Each key's current position in the list. */
  type Positions<K> = map<K, int>

  /** No two keys share a position. */
  ghost predicate Injective<K>(m: Positions<K>) {
    forall a, b :: a in m && b in m && m[a] == m[b] ==> a == b
  }

  /** Every recorded position addresses one of `n` list slots. */
  ghost predicate Bounded<K>(m: Positions<K>, n: int) {
    forall k :: k in m ==> 0 <= m[k] < n
  }

  /** The recorded positions are exactly 0..n-1, each used by one key. */
  ghost predicate Dense<K>(m: Positions<K>, n: int) {
    Bounded(m, n) && Injective(m) && |m| == n
  }

  /** Keys recorded in both tables stand in the same relative order. */
  ghost predicate SameOrder<K>(m: Positions<K>, r: Positions<K>) {
    forall a, b :: a in m && b in m && a in r && b in r ==> (m[a] < m[b] <==> r[a] < r[b])
  }

  /** The positions 0..n-1. */
  function Range(n: nat): (s: set<int>)
    ensures forall i :: i in s <==> 0 <= i < n
    ensures |s| == n
  {
    if n == 0 then {} else Range(n - 1) + {n - 1}
  }

  /** An injective table has as many distinct positions as keys. */
  lemma {:induction false} InjectiveValuesSize<K>(m: Positions<K>)
    requires Injective(m)
    ensures |m.Values| == |m|
  {
    if |m| > 0 {
      var k :| k in m;
      var m' := m - {k};
      assert m'.Keys == m.Keys - {k};
      InjectiveValuesSize(m');
      assert m.Values == m'.Values + {m[k]};
      assert m[k] !in m'.Values;
    }
  }

  /** Pigeonhole: a dense table uses every position 0..n-1. */
  lemma DenseCovers<K>(m: Positions<K>, n: int)
    requires Dense(m, n)
    ensures m.Values == Range(n)
  {
    InjectiveValuesSize(m);
    assert m.Values <= Range(n);
    assert |Range(n) - m.Values| == |Range(n)| - |m.Values|;
    assert Range(n) - m.Values == {};
  }

  /** The keys recorded at a given position. */
  function KeysAt<K>(m: Positions<K>, index: int): set<K> {
    set k | k in m && m[k] == index
  }

  /** In a dense table every position 0..n-1 belongs to exactly one key. */
  lemma DenseKeyAt<K>(m: Positions<K>, n: int, index: int) returns (key: K)
    requires Dense(m, n) && 0 <= index < n
    ensures key in m && m[key] == index
    ensures KeysAt(m, index) == {key}
  {
    DenseCovers(m, n);
    assert index in m.Values;
    key :| key in m && m[key] == index;
  }

  /** The renumbering half of `InsertIndexLookupItem`: positions at or after
      `index` move one place later. */
  function ShiftUpFrom<K>(m: Positions<K>, index: int): (r: Positions<K>)
    ensures r.Keys == m.Keys
    ensures SameOrder(m, r)
    ensures forall k :: k in r ==> r[k] != index
    ensures forall k :: k in m ==> (r[k] > index <==> m[k] >= index)
  {
    map k | k in m :: if m[k] >= index then m[k] + 1 else m[k]
  }

  /** `InsertIndexLookupItem`: renumber, then bind the new key to `index`
      with `Dictionary.Add`. A present key throws only after the renumbering
      has been committed. */
  function InsertIndexLookupItem<K>(m: Positions<K>, key: K, index: int): (r: Step<Positions<K>, ()>)
    ensures r.result.Threw? <==> key in m
    ensures r.result.Threw? ==> r.result.exception == Argument
    ensures r.state.Keys == m.Keys + {key}
    ensures r.result.Returned? ==> r.state[key] == index
    ensures SameOrder(m, r.state)
    ensures forall k :: k in m && k != key ==> r.state[k] != index
  {
    DictionaryAdd(ShiftUpFrom(m, index), key, index)
  }

  /** Every old key at or after `index` moves one place later, every other
      old key stays put, whether or not the final `Dictionary.Add` throws. */
  lemma InsertIndexLookupItemMoves<K>(m: Positions<K>, key: K, index: int)
    ensures forall k :: k in m ==>
      InsertIndexLookupItem(m, key, index).state[k] == if m[k] >= index then m[k] + 1 else m[k]
  {
  }

  /** Shifting up keeps positions distinct and inside one more slot. */
  lemma InsertIndexLookupItemWellFormed<K>(m: Positions<K>, key: K, index: int, n: int)
    requires Bounded(m, n) && Injective(m) && 0 <= index <= n
    ensures Bounded(InsertIndexLookupItem(m, key, index).state, n + 1)
    ensures Injective(InsertIndexLookupItem(m, key, index).state)
  {
    var r := InsertIndexLookupItem(m, key, index).state;
    forall a, b | a in m && b in m && a != b
      ensures r[a] != r[b]
    {
      assert m[a] < m[b] || m[b] < m[a];
    }
  }

  /** With a fresh key a dense table stays dense, one position larger; with
      a present key it gains no entry, so it cannot cover one more slot. */
  lemma InsertIndexLookupItemDense<K>(m: Positions<K>, key: K, index: int, n: int)
    requires Dense(m, n) && 0 <= index <= n
    ensures Dense(InsertIndexLookupItem(m, key, index).state, n + 1) <==> key !in m
  {
    InsertIndexLookupItemWellFormed(m, key, index, n);
    var r := InsertIndexLookupItem(m, key, index).state;
    if key in m {
      assert r.Keys == m.Keys;
    }
  }

  /** `RemoveIndexLookupItem`: drop the key at `index` and move every later
      position one place earlier. */
  function RemoveIndexLookupItem<K>(m: Positions<K>, index: int): (r: Positions<K>)
    ensures r.Keys == m.Keys - KeysAt(m, index)
    ensures SameOrder(m, r)
    ensures forall k :: k in r ==> (r[k] < index <==> m[k] < index)
  {
    map k | k in m && m[k] != index :: if m[k] > index then m[k] - 1 else m[k]
  }

  /** Every surviving key after `index` moves one place earlier, every
      key before it stays put. */
  lemma RemoveIndexLookupItemMoves<K>(m: Positions<K>, index: int)
    ensures forall k :: k in RemoveIndexLookupItem(m, index) ==>
      RemoveIndexLookupItem(m, index)[k] == if m[k] > index then m[k] - 1 else m[k]
  {
  }

  /** Closing the gap keeps positions distinct and inside one slot fewer; a
      dense table stays dense, one position smaller. */
  lemma RemoveIndexLookupItemWellFormed<K>(m: Positions<K>, index: int, n: int)
    requires Bounded(m, n) && Injective(m) && 0 <= index < n
    ensures Bounded(RemoveIndexLookupItem(m, index), n - 1)
    ensures Injective(RemoveIndexLookupItem(m, index))
    ensures Dense(m, n) ==> Dense(RemoveIndexLookupItem(m, index), n - 1)
  {
    var r := RemoveIndexLookupItem(m, index);
    forall a, b | a in r && b in r && a != b
      ensures r[a] != r[b]
    {
      assert m[a] < m[b] || m[b] < m[a];
    }
    if |m| == n {
      var key := DenseKeyAt(m, n, index);
      assert r.Keys == m.Keys - {key};
    }
  }

  /** Removing the last position, just bound to a fresh key, restores the
      original table. */
  lemma AppendThenRemove<K>(m: Positions<K>, key: K, n: int)
    requires Bounded(m, n) && key !in m
    ensures RemoveIndexLookupItem(m[key := n], n) == m
  {
    var r := RemoveIndexLookupItem(m[key := n], n);
    assert KeysAt(m[key := n], n) == {key};
    assert r.Keys == m.Keys;
  }

  /** Removing the position just inserted restores the original table. */
  lemma InsertThenRemove<K>(m: Positions<K>, key: K, index: int)
    requires key !in m
    ensures RemoveIndexLookupItem(InsertIndexLookupItem(m, key, index).state, index) == m
  {
    var s := ShiftUpFrom(m, index)[key := index];
    assert InsertIndexLookupItem(m, key, index).state == s;
    var r := RemoveIndexLookupItem(s, index);
    assert KeysAt(s, index) == {key};
    assert r.Keys == m.Keys;
    forall k | k in m
      ensures r[k] == m[k]
    {
      assert s[k] == if m[k] >= index then m[k] + 1 else m[k];
    }
  }
}
