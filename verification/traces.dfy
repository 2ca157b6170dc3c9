/** Sequences of mutating calls, where the caller catches each call's
    exception before making the next one. Only a duplicate key breaks the
    intended invariant, and the corrected operations never do. */
module Traces {
  import opened DotNet
  import opened OrderedDictionary
  import opened Refinement
  import opened BulkAdd
  import opened BulkAddFacts
  import opened ListIndexer
  import opened Corrected

  /** One mutating call on the dictionary or its `ByIndex` indexer. */
  datatype Op<K, V> =
    | AddOp(key: K, value: V)
    | AddRangeOp(pairs: seq<(K, V)>)
    | InsertOp(index: int, key: K, value: V)
    | SetOp(key: K, value: V)
    | SetAtOp(index: int, value: V)
    | RemoveOp(key: K)
    | RemoveAtOp(index: int)
    | ClearOp

  /** One call, with the operations as written. */
  function Apply<K, V>(d: Dict<K, V>, op: Op<K, V>): (r: Step<Dict<K, V>, ()>)
    requires WellFormed(d)
    ensures WellFormed(r.state)
  {
    match op
    case AddOp(key, value) => Add(d, key, value)
    case AddRangeOp(pairs) => AddRange(d, pairs)
    case InsertOp(index, key, value) => Insert(d, index, key, value)
    case SetOp(key, value) => Step(Set(d, key, value), Returned(()))
    case SetAtOp(index, value) => SetAt(d, index, value)
    case RemoveOp(key) => Step(Remove(d, key).0, Returned(()))
    case RemoveAtOp(index) => RemoveAt(d, index)
    case ClearOp => Step(Clear(d), Returned(()))
  }

  /** One call, with the corrected `Add`, `AddRange` and `Insert`. */
  function ApplyChecked<K, V>(d: Dict<K, V>, op: Op<K, V>): (r: Step<Dict<K, V>, ()>)
    requires WellFormed(d)
    ensures WellFormed(r.state)
  {
    match op
    case AddOp(key, value) => AddChecked(d, key, value)
    case AddRangeOp(pairs) => AddRangeChecked(d, pairs)
    case InsertOp(index, key, value) => InsertChecked(d, index, key, value)
    case _ => Apply(d, op)
  }

  /** On a valid dictionary, a call as written keeps it valid exactly when
      it does not end in the duplicate-key ArgumentException. */
  lemma ApplyKeepsValid<K, V>(d: Dict<K, V>, op: Op<K, V>)
    requires Valid(d)
    ensures Valid(Apply(d, op).state) <==> Apply(d, op).result != Threw(Argument)
  {
    match op
    case AddOp(key, value) => AddKeepsValid(d, key, value);
    case AddRangeOp(pairs) => AddRangeKeepsValid(d, pairs);
    case InsertOp(index, key, value) =>
      if 0 <= index <= Count(d) {
        InsertKeepsValid(d, index, key, value);
      }
    case SetOp(key, value) => SetKeepsValid(d, key, value);
    case SetAtOp(index, value) => SetAtKeepsInvariants(d, index, value);
    case RemoveOp(key) =>
    case RemoveAtOp(index) =>
    case ClearOp =>
  }

  /** A corrected call keeps a valid dictionary valid, whatever it is. */
  lemma ApplyCheckedKeepsValid<K, V>(d: Dict<K, V>, op: Op<K, V>)
    requires Valid(d)
    ensures Valid(ApplyChecked(d, op).state)
  {
    match op
    case AddOp(key, value) => AddCheckedKeepsValid(d, key, value);
    case AddRangeOp(pairs) => AddRangeCheckedKeepsValid(d, pairs);
    case InsertOp(index, key, value) => InsertCheckedKeepsValid(d, index, key, value);
    case _ => ApplyKeepsValid(d, op);
  }

  /** A call that does not meet a duplicate key behaves the same as written
      and corrected. */
  lemma ApplyCheckedAgrees<K, V>(d: Dict<K, V>, op: Op<K, V>)
    requires WellFormed(d)
    ensures Apply(d, op).result != Threw(Argument) ==> ApplyChecked(d, op) == Apply(d, op)
  {
    if op.AddRangeOp? {
      AddRangeCheckedAgrees(d, op.pairs);
    }
  }

  /** A run of calls as written: the final state and each call's outcome. */
  function Run<K, V>(d: Dict<K, V>, ops: seq<Op<K, V>>): (r: (Dict<K, V>, seq<Result<()>>))
    requires WellFormed(d)
    ensures WellFormed(r.0)
    ensures |r.1| == |ops|
    decreases |ops|
  {
    if |ops| == 0 then
      (d, [])
    else
      var s := Apply(d, ops[0]);
      var rest := Run(s.state, ops[1..]);
      (rest.0, [s.result] + rest.1)
  }

  /** A run of corrected calls. */
  function RunChecked<K, V>(d: Dict<K, V>, ops: seq<Op<K, V>>): (r: (Dict<K, V>, seq<Result<()>>))
    requires WellFormed(d)
    ensures WellFormed(r.0)
    ensures |r.1| == |ops|
    decreases |ops|
  {
    if |ops| == 0 then
      (d, [])
    else
      var s := ApplyChecked(d, ops[0]);
      var rest := RunChecked(s.state, ops[1..]);
      (rest.0, [s.result] + rest.1)
  }

  /** No call of the run ended in the duplicate-key ArgumentException. */
  predicate NoDuplicateKey(outcomes: seq<Result<()>>) {
    forall i :: 0 <= i < |outcomes| ==> outcomes[i] != Threw(Argument)
  }

  /** A run as written from a valid dictionary ends valid when no call met
      a duplicate key. */
  lemma {:induction false} RunKeepsValid<K, V>(d: Dict<K, V>, ops: seq<Op<K, V>>)
    requires Valid(d)
    ensures NoDuplicateKey(Run(d, ops).1) ==> Valid(Run(d, ops).0)
    decreases |ops|
  {
    if |ops| > 0 {
      var s := Apply(d, ops[0]);
      var r := Run(d, ops);
      if NoDuplicateKey(r.1) {
        assert r.1[0] == s.result;
        ApplyKeepsValid(d, ops[0]);
        RunKeepsValid(s.state, ops[1..]);
        assert r.1[1..] == Run(s.state, ops[1..]).1;
      }
    }
  }

  /** A run of corrected calls from a valid dictionary ends valid. */
  lemma {:induction false} RunCheckedKeepsValid<K, V>(d: Dict<K, V>, ops: seq<Op<K, V>>)
    requires Valid(d)
    ensures Valid(RunChecked(d, ops).0)
    decreases |ops|
  {
    if |ops| > 0 {
      ApplyCheckedKeepsValid(d, ops[0]);
      RunCheckedKeepsValid(ApplyChecked(d, ops[0]).state, ops[1..]);
    }
  }

  /** On a run that meets no duplicate key the corrected calls do exactly
      what the calls as written do. */
  lemma {:induction false} RunCheckedAgrees<K, V>(d: Dict<K, V>, ops: seq<Op<K, V>>)
    requires WellFormed(d)
    ensures NoDuplicateKey(Run(d, ops).1) ==> RunChecked(d, ops) == Run(d, ops)
    decreases |ops|
  {
    if |ops| > 0 {
      var s := Apply(d, ops[0]);
      var r := Run(d, ops);
      if NoDuplicateKey(r.1) {
        assert r.1[0] == s.result;
        ApplyCheckedAgrees(d, ops[0]);
        RunCheckedAgrees(s.state, ops[1..]);
        assert r.1[1..] == Run(s.state, ops[1..]).1;
      }
    }
  }
}
