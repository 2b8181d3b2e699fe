/** Batches of transactions as stretches of the log, with and without transactions that fail. */
module Batches {
  import opened Events
  import opened Indexer
  import opened IndexerFaults

  function Flatten<T>(ledger: seq<Tx<T>>): seq<Payload<T>> {
    if |ledger| == 0 then [] else Flatten(ledger[..|ledger| - 1]) + ledger[|ledger| - 1].lines
  }

  lemma {:induction false} FlattenConcat<T>(a: seq<Tx<T>>, b: seq<Tx<T>>)
    ensures Flatten(a + b) == Flatten(a) + Flatten(b)
    decreases |b|
  {
    if |b| == 0 {
      assert a + b == a;
    } else {
      var m := |b| - 1;
      var ab := a + b;
      FlattenConcat(a, b[..m]);
      assert ab[..|ab| - 1] == a + b[..m] && ab[|ab| - 1] == b[m];
      assert Flatten(ab) == Flatten(a + b[..m]) + b[m].lines;
      assert Flatten(b) == Flatten(b[..m]) + b[m].lines;
    }
  }

  lemma {:induction false} FlattenOne<T>(tx: Tx<T>)
    ensures Flatten([tx]) == tx.lines
  {
    assert [tx][..0] == [];
  }

  /** The first n transactions are the first one and n - 1 of the others. */
  lemma {:induction false} FlattenHead<T>(batch: seq<Tx<T>>, n: nat)
    requires 0 < n <= |batch|
    ensures Flatten(batch[..n]) == batch[0].lines + Flatten(batch[1..][..n - 1])
    ensures n == |batch| ==> Flatten(batch) == batch[0].lines + Flatten(batch[1..])
  {
    var tail := batch[1..];
    assert batch[..n] == [batch[0]] + tail[..n - 1];
    FlattenConcat([batch[0]], tail[..n - 1]);
    FlattenOne(batch[0]);
    if n == |batch| { assert batch[..n] == batch && tail[..n - 1] == tail; }
  }

  /** Number of log lines before transaction `p`. */
  function Offset<T>(ledger: seq<Tx<T>>, p: nat): nat
    requires p <= |ledger|
  {
    |Flatten(ledger[..p])|
  }

  lemma {:induction false} FlattenSlice<T>(ledger: seq<Tx<T>>, a: nat, b: nat)
    requires a <= b <= |ledger|
    ensures Offset(ledger, a) <= Offset(ledger, b) <= |Flatten(ledger)|
    ensures Flatten(ledger[a..b]) == Flatten(ledger)[Offset(ledger, a)..Offset(ledger, b)]
  {
    FlattenConcat(ledger[..a], ledger[a..b]);
    FlattenConcat(ledger[..b], ledger[b..]);
    assert ledger[..a] + ledger[a..b] == ledger[..b];
    assert ledger[..b] + ledger[b..] == ledger;
  }

  /** Every line of the transaction is processed, and it is not an error. */
  predicate Complete<T(==)>(tx: Tx<T>, troubles: Troubles) {
    !Fails(tx, troubles) && Handled(tx, troubles) == tx.lines
  }

  /** The transaction fails before its first line. */
  predicate Untouched<T(==)>(tx: Tx<T>, troubles: Troubles) {
    Fails(tx, troubles) && Handled(tx, troubles) == []
  }

  /** Once a transaction of the batch fails, everything after it fails too: an outage that outlasts the tick. */
  ghost predicate Orderly<T>(batch: seq<Tx<T>>, troubles: Troubles) {
    |batch| > 0 ==>
      if Complete(batch[0], troubles) then Orderly(batch[1..], troubles)
      else Fails(batch[0], troubles) && forall i | 1 <= i < |batch| :: Untouched(batch[i], troubles)
  }

  lemma {:induction false} NothingHandled<T>(batch: seq<Tx<T>>, troubles: Troubles)
    requires forall i | 0 <= i < |batch| :: Untouched(batch[i], troubles)
    ensures HandledLines(batch, troubles) == [] && Successes(batch, troubles) == 0
    decreases |batch|
  {
    if |batch| > 0 {
      NothingHandled(batch[1..], troubles);
      assert Untouched(batch[0], troubles);
    }
    var n := Successes(batch, troubles);
    assert n > 0 ==> Untouched(batch[n - 1], troubles);
  }

  /** The first transaction is complete; `n` are the lines handled of the others. */
  lemma {:induction false} CompleteHead<T>(batch: seq<Tx<T>>, troubles: Troubles)
    requires |batch| > 0 && Complete(batch[0], troubles)
    requires HandledLines(batch[1..], troubles) <= Flatten(batch[1..])
    requires |Flatten(batch[1..][..Successes(batch[1..], troubles)])| <= |HandledLines(batch[1..], troubles)|
    ensures HandledLines(batch, troubles) <= Flatten(batch)
    ensures |Flatten(batch[..Successes(batch, troubles)])| <= |HandledLines(batch, troubles)|
  {
    SuccessesOfTail(batch, troubles);
    FlattenHead(batch, |batch|);
    FlattenHead(batch, Successes(batch[1..], troubles) + 1);
  }

  /** The first transaction fails, and nothing is handled after it. */
  lemma {:induction false} FailedHead<T>(batch: seq<Tx<T>>, troubles: Troubles)
    requires |batch| > 0 && Fails(batch[0], troubles)
    requires forall i | 1 <= i < |batch| :: Untouched(batch[i], troubles)
    ensures HandledLines(batch, troubles) <= Flatten(batch) && Successes(batch, troubles) == 0
  {
    var tail := batch[1..];
    forall i | 0 <= i < |tail| ensures Untouched(tail[i], troubles) {
      assert tail[i] == batch[i + 1];
    }
    NothingHandled(tail, troubles);
    SuccessesOfTail(batch, troubles);
    FlattenHead(batch, |batch|);
  }

  /** An orderly batch handles a prefix of its lines, and all lines up to its last success. */
  lemma {:induction false} OrderlyBatch<T>(batch: seq<Tx<T>>, troubles: Troubles)
    requires Orderly(batch, troubles)
    ensures HandledLines(batch, troubles) <= Flatten(batch)
    ensures |Flatten(batch[..Successes(batch, troubles)])| <= |HandledLines(batch, troubles)|
    decreases |batch|
  {
    if |batch| > 0 {
      if Complete(batch[0], troubles) {
        OrderlyBatch(batch[1..], troubles);
        CompleteHead(batch, troubles);
      } else {
        FailedHead(batch, troubles);
        assert batch[..0] == [];
      }
    }
  }

  /** Without trouble a batch is orderly and handles all its lines. */
  lemma {:induction false} NoTroubleIsOrderly<T>(batch: seq<Tx<T>>)
    ensures Orderly(batch, map[])
    ensures HandledLines(batch, map[]) == Flatten(batch)
    decreases |batch|
  {
    if |batch| > 0 {
      NoTroubleIsOrderly(batch[1..]);
      FlattenHead(batch, |batch|);
    }
  }

  lemma {:induction false} SliceOfBatch<T>(ledger: seq<Tx<T>>, start: nat, seen: nat, n: nat)
    requires start <= start + n <= seen <= |ledger|
    ensures Offset(ledger, start + n) == Offset(ledger, start) + |Flatten(ledger[start..seen][..n])|
    ensures n > 0 ==> ledger[start..seen][n - 1] == ledger[start + n - 1]
  {
    FlattenSlice(ledger, start, start + n);
    assert ledger[start..seen][..n] == ledger[start..start + n];
  }

  /** The last success of the orderly batch start..seen of the ledger: everything before it has been handled. */
  lemma {:induction false} LastSuccessHandled<T>(ledger: seq<Tx<T>>, start: nat, seen: nat, troubles: Troubles)
    requires start <= seen <= |ledger| && Orderly(ledger[start..seen], troubles)
    ensures var batch := ledger[start..seen];
            var n := Successes(batch, troubles);
            && start + n <= seen
            && Offset(ledger, start + n) <= Offset(ledger, start) + |HandledLines(batch, troubles)|
            && (n > 0 ==> batch[n - 1] == ledger[start + n - 1])
  {
    var batch := ledger[start..seen];
    var n := Successes(batch, troubles);
    OrderlyBatch(batch, troubles);
    SliceOfBatch(ledger, start, seen, n);
  }
}
