/**
 Reduction of one poll's worker records to per-algorithm totals: the summed
 accepted hashrate and the number of contributing workers. Records whose
 accepted hashrate is not strictly positive are skipped.
 */
module Aggregation {

  /** One reported worker, its accepted hashrate already parsed to a number. */
  datatype WorkerRecord = WorkerRecord(algo: string, accepted: real)

  /** The two maps the aggregator returns, keyed by algorithm. */
  datatype Aggregates = Aggregates(hashrates: map<string, real>, workers: map<string, nat>)

  predicate Contributes(m: WorkerRecord)
  {
    m.accepted > 0.0
  }

  /** The records that count towards `algo`, in input order (a reference
      definition, independent of the accumulating loop). */
  function Contributors(miners: seq<WorkerRecord>, algo: string): seq<WorkerRecord>
  {
    if |miners| == 0 then []
    else
      var m := miners[|miners| - 1];
      Contributors(miners[..|miners| - 1], algo) + (if Contributes(m) && m.algo == algo then [m] else [])
  }

  /** Sum of the accepted hashrates of `rs`. */
  function TotalAccepted(rs: seq<WorkerRecord>): real
  {
    if |rs| == 0 then 0.0 else TotalAccepted(rs[..|rs| - 1]) + rs[|rs| - 1].accepted
  }

  /** The algorithms with at least one contributing record. */
  function ContributingAlgos(miners: seq<WorkerRecord>): set<string>
  {
    set m | m in miners && Contributes(m) :: m.algo
  }

  /** An algorithm has contributors exactly when some positive record names it. */
  lemma {:induction false} ContributorsNonEmptyIff(miners: seq<WorkerRecord>, algo: string)
    ensures |Contributors(miners, algo)| > 0 <==> algo in ContributingAlgos(miners)
  {
    if |miners| > 0 {
      var init := miners[..|miners| - 1];
      var m := miners[|miners| - 1];
      ContributorsNonEmptyIff(init, algo);
      assert miners == init + [m];
      if algo in ContributingAlgos(init) {
        var w :| w in init && Contributes(w) && w.algo == algo;
        assert w in miners;
      }
      if algo in ContributingAlgos(miners) {
        var w :| w in miners && Contributes(w) && w.algo == algo;
        if w != m {
          assert w in init;
        }
      }
    }
  }

  /** Appending one record extends each algorithm's contributors by at most that record. */
  lemma ContributorsSnoc(miners: seq<WorkerRecord>, m: WorkerRecord, algo: string)
    ensures Contributors(miners + [m], algo)
         == Contributors(miners, algo) + (if Contributes(m) && m.algo == algo then [m] else [])
  {
    assert (miners + [m])[..|miners + [m]| - 1] == miners;
  }

  lemma ContributingAlgosSnoc(miners: seq<WorkerRecord>, m: WorkerRecord)
    ensures ContributingAlgos(miners + [m])
         == ContributingAlgos(miners) + (if Contributes(m) then {m.algo} else {})
  {
    forall k | k in ContributingAlgos(miners + [m])
      ensures k in ContributingAlgos(miners) + (if Contributes(m) then {m.algo} else {})
    {
      var w :| w in miners + [m] && Contributes(w) && w.algo == k;
      if w != m {
        assert w in miners;
      }
    }
    forall k | k in ContributingAlgos(miners)
      ensures k in ContributingAlgos(miners + [m])
    {
      var w :| w in miners && Contributes(w) && w.algo == k;
      assert w in miners + [m];
    }
    if Contributes(m) {
      assert m in miners + [m];
    }
  }

  /** `agg` is exactly the aggregate of `miners`: both maps are keyed by the
      algorithms with a positive record, the count is the number of such
      records and the hashrate is the sum of their accepted values. */
  ghost predicate Summarises(agg: Aggregates, miners: seq<WorkerRecord>)
  {
    && agg.hashrates.Keys == ContributingAlgos(miners)
    && agg.workers.Keys == agg.hashrates.Keys
    && (forall k :: k in agg.workers ==> agg.workers[k] == |Contributors(miners, k)|)
    && (forall k :: k in agg.hashrates ==> agg.hashrates[k] == TotalAccepted(Contributors(miners, k)))
  }

  /** The running hashrate of `k`, zero while `k` has no entry. */
  function RateOf(agg: Aggregates, k: string): real
  {
    if k in agg.hashrates then agg.hashrates[k] else 0.0
  }

  /** The running worker count of `k`, zero while `k` has no entry. */
  function CountOf(agg: Aggregates, k: string): nat
  {
    if k in agg.workers then agg.workers[k] else 0
  }

  /** One iteration of the aggregation loop. The loop only ever updates both
      maps together, so they share their keys; the worker count is looked up
      under a key found in the hashrate map. A positive record opens an entry
      for its algorithm if needed and adds its accepted value and one worker
      to it; every other entry, and everything for a record that is not
      positive, stays as it was. */
  function Accumulate(agg: Aggregates, m: WorkerRecord): (r: Aggregates)
    requires agg.workers.Keys == agg.hashrates.Keys
    ensures r.hashrates.Keys == agg.hashrates.Keys + (if Contributes(m) then {m.algo} else {})
    ensures r.workers.Keys == r.hashrates.Keys
    ensures forall k :: k in r.hashrates ==>
              RateOf(r, k) == RateOf(agg, k) + (if Contributes(m) && k == m.algo then m.accepted else 0.0)
    ensures forall k :: k in r.workers ==>
              CountOf(r, k) == CountOf(agg, k) + (if Contributes(m) && k == m.algo then 1 else 0)
  {
    if m.accepted > 0.0 then
      var key := m.algo;
      if key in agg.hashrates then
        Aggregates(agg.hashrates[key := agg.hashrates[key] + m.accepted],
                   agg.workers[key := agg.workers[key] + 1])
      else
        Aggregates(agg.hashrates[key := m.accepted], agg.workers[key := 1])
    else agg
  }

  /** One key after one loop iteration. */
  lemma AccumulateAt(agg: Aggregates, miners: seq<WorkerRecord>, m: WorkerRecord, k: string)
    requires Summarises(agg, miners)
    requires k in Accumulate(agg, m).workers
    ensures Accumulate(agg, m).workers[k] == |Contributors(miners + [m], k)|
    ensures Accumulate(agg, m).hashrates[k] == TotalAccepted(Contributors(miners + [m], k))
  {
    var next := Accumulate(agg, m);
    var c := Contributors(miners, k);
    // The running totals of `k` before this record are those of its contributors.
    assert CountOf(agg, k) == |c| && RateOf(agg, k) == TotalAccepted(c) by {
      if k !in agg.hashrates {
        ContributorsNonEmptyIff(miners, k);
      }
    }
    ContributorsSnoc(miners, m, k);
    assert next.workers[k] == CountOf(next, k);
    assert next.hashrates[k] == RateOf(next, k);
    if k == m.algo && Contributes(m) {
      assert Contributors(miners + [m], k) == c + [m];
      assert TotalAccepted(c + [m]) == TotalAccepted(c) + m.accepted by {
        assert (c + [m])[..|c + [m]| - 1] == c;
      }
      assert RateOf(next, k) == RateOf(agg, k) + m.accepted;
    } else {
      assert Contributors(miners + [m], k) == c;
      assert RateOf(next, k) == RateOf(agg, k);
    }
  }

  lemma AccumulateKeys(agg: Aggregates, miners: seq<WorkerRecord>, m: WorkerRecord)
    requires agg.hashrates.Keys == ContributingAlgos(miners)
    requires agg.workers.Keys == agg.hashrates.Keys
    ensures Accumulate(agg, m).hashrates.Keys == ContributingAlgos(miners + [m])
    ensures Accumulate(agg, m).workers.Keys == Accumulate(agg, m).hashrates.Keys
  {
    ContributingAlgosSnoc(miners, m);
  }

  lemma AccumulateStep(agg: Aggregates, miners: seq<WorkerRecord>, m: WorkerRecord)
    requires Summarises(agg, miners)
    ensures Summarises(Accumulate(agg, m), miners + [m])
  {
    var next := Accumulate(agg, m);
    AccumulateKeys(agg, miners, m);
    forall k | k in next.workers
      ensures next.workers[k] == |Contributors(miners + [m], k)|
      ensures next.hashrates[k] == TotalAccepted(Contributors(miners + [m], k))
    {
      AccumulateAt(agg, miners, m, k);
    }
  }

  /** The aggregation loop. Only positive records contribute; both maps have
      the same keys, namely the algorithms with a positive record; for each
      key the worker count is the number of its positive records (so at least
      one) and the hashrate is the sum of their accepted values. */
  method AggregateHashrates(miners: seq<WorkerRecord>) returns (agg: Aggregates)
    ensures agg.hashrates.Keys == ContributingAlgos(miners)
    ensures agg.workers.Keys == agg.hashrates.Keys
    ensures forall k :: k in agg.workers ==> agg.workers[k] == |Contributors(miners, k)| >= 1
    ensures forall k :: k in agg.hashrates ==> agg.hashrates[k] == TotalAccepted(Contributors(miners, k))
  {
    agg := Aggregates(map[], map[]);
    var i := 0;
    while i < |miners|
      invariant 0 <= i <= |miners|
      invariant Summarises(agg, miners[..i])
    {
      AccumulateStep(agg, miners[..i], miners[i]);
      assert miners[..i + 1] == miners[..i] + [miners[i]];
      agg := Accumulate(agg, miners[i]);
      i := i + 1;
    }
    assert miners[..i] == miners;
    forall k | k in agg.workers
      ensures agg.workers[k] >= 1
    {
      ContributorsNonEmptyIff(miners, k);
    }
  }

  // Order independence: the reference definition depends only on the
  // multiset of records.

  lemma {:induction false} TotalAcceptedAppend(a: seq<WorkerRecord>, b: seq<WorkerRecord>)
    ensures TotalAccepted(a + b) == TotalAccepted(a) + TotalAccepted(b)
    decreases |b|
  {
    if |b| > 0 {
      var b' := b[..|b| - 1];
      assert (a + b)[..|a + b| - 1] == a + b';
      TotalAcceptedAppend(a, b');
    } else {
      assert a + b == a;
    }
  }

  /** Taking out the record at index `j` lowers the total by its accepted value. */
  lemma TotalAcceptedRemove(b: seq<WorkerRecord>, j: nat)
    requires j < |b|
    ensures TotalAccepted(b) == TotalAccepted(b[..j] + b[j + 1..]) + b[j].accepted
  {
    assert b == b[..j] + ([b[j]] + b[j + 1..]);
    TotalAcceptedAppend(b[..j], [b[j]] + b[j + 1..]);
    TotalAcceptedAppend([b[j]], b[j + 1..]);
    TotalAcceptedAppend(b[..j], b[j + 1..]);
    assert TotalAccepted([b[j]]) == b[j].accepted by {
      assert [b[j]][..0] == [];
    }
  }

  /** Summation does not depend on the order of the records. */
  lemma {:induction false} TotalAcceptedPermutation(a: seq<WorkerRecord>, b: seq<WorkerRecord>)
    requires multiset(a) == multiset(b)
    ensures TotalAccepted(a) == TotalAccepted(b)
    decreases |a|
  {
    if |a| == 0 {
      assert |multiset(b)| == |b|;
    } else {
      var a' := a[..|a| - 1];
      var x := a[|a| - 1];
      assert a == a' + [x];
      assert x in multiset(b);
      var j :| 0 <= j < |b| && b[j] == x;
      var b' := b[..j] + b[j + 1..];
      assert b == b[..j] + [x] + b[j + 1..];
      assert multiset(a') == multiset(a) - multiset{x};
      assert multiset(b') == multiset(b) - multiset{x};
      TotalAcceptedPermutation(a', b');
      TotalAcceptedRemove(b, j);
    }
  }

  /** Filtering commutes with taking the multiset. */
  lemma {:induction false} ContributorsMultiset(miners: seq<WorkerRecord>, algo: string, r: WorkerRecord)
    ensures multiset(Contributors(miners, algo))[r]
         == if Contributes(r) && r.algo == algo then multiset(miners)[r] else 0
  {
    if |miners| > 0 {
      var init := miners[..|miners| - 1];
      assert miners == init + [miners[|miners| - 1]];
      ContributorsMultiset(init, algo, r);
    }
  }

  /** Reordering the records changes neither the set of keys nor any key's
      worker count or summed hashrate. */
  lemma AggregationOrderIndependent(a: seq<WorkerRecord>, b: seq<WorkerRecord>, algo: string)
    requires multiset(a) == multiset(b)
    ensures ContributingAlgos(a) == ContributingAlgos(b)
    ensures |Contributors(a, algo)| == |Contributors(b, algo)|
    ensures TotalAccepted(Contributors(a, algo)) == TotalAccepted(Contributors(b, algo))
  {
    forall r
      ensures multiset(Contributors(a, algo))[r] == multiset(Contributors(b, algo))[r]
    {
      ContributorsMultiset(a, algo, r);
      ContributorsMultiset(b, algo, r);
    }
    assert multiset(Contributors(a, algo)) == multiset(Contributors(b, algo));
    assert |multiset(Contributors(a, algo))| == |Contributors(a, algo)|;
    TotalAcceptedPermutation(Contributors(a, algo), Contributors(b, algo));
    forall k
      ensures k in ContributingAlgos(a) <==> k in ContributingAlgos(b)
    {
      ContributorsNonEmptyIff(a, k);
      ContributorsNonEmptyIff(b, k);
      forall r
        ensures multiset(Contributors(a, k))[r] == multiset(Contributors(b, k))[r]
      {
        ContributorsMultiset(a, k, r);
        ContributorsMultiset(b, k, r);
      }
      assert multiset(Contributors(a, k)) == multiset(Contributors(b, k));
    }
  }
}
