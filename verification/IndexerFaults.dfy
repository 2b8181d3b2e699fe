/**
 What a tick does about a transaction it could not process: it goes on, and the cursor may
 pass it (app/backend/src/indexer.rs).
 */
module IndexerFaults {
  import opened Wrappers
  import opened Merkle
  import opened Events
  import opened TreeStore
  import opened Pagination
  import opened Indexer

  // ---------- the lines a batch processes ----------

  function HandledLines<T>(batch: seq<Tx<T>>, troubles: Troubles): seq<Payload<T>> {
    if |batch| == 0 then [] else Handled(batch[0], troubles) + HandledLines(batch[1..], troubles)
  }

  lemma {:induction false} IndexConcat<T>(H: Hasher<T>, depth: nat, p: Progress<T>, a: seq<Payload<T>>,
      b: seq<Payload<T>>)
    ensures IndexLines(H, depth, p, a + b) == IndexLines(H, depth, IndexLines(H, depth, p, a), b)
    decreases |a|
  {
    if |a| == 0 {
      assert a + b == b;
    } else {
      assert (a + b)[1..] == a[1..] + b;
      IndexConcat(H, depth, IndexLine(H, depth, p, a[0]), a[1..], b);
    }
  }

  /** Whatever goes wrong in a batch, its effect is that of the lines it handles, in order. */
  lemma {:induction false} BatchIsLines<T>(H: Hasher<T>, depth: nat, p: Progress<T>, newest: Option<Signature>,
      batch: seq<Tx<T>>, troubles: Troubles)
    ensures ProcessBatch(H, depth, p, newest, batch, troubles).0
         == IndexLines(H, depth, p, HandledLines(batch, troubles))
    decreases |batch|
  {
    if |batch| > 0 {
      var here := Handled(batch[0], troubles);
      var newest' := if Fails(batch[0], troubles) then newest else Some(batch[0].signature);
      IndexConcat(H, depth, p, here, HandledLines(batch[1..], troubles));
      BatchIsLines(H, depth, IndexLines(H, depth, p, here), newest', batch[1..], troubles);
    }
  }

  // ---------- the cursor ----------

  /** Position after the last transaction of the batch that did not fail, 0 if there is none. */
  function Successes<T>(batch: seq<Tx<T>>, troubles: Troubles): (n: nat)
    ensures n <= |batch|
    ensures n > 0 ==> !Fails(batch[n - 1], troubles)
    ensures forall i | n <= i < |batch| :: Fails(batch[i], troubles)
  {
    if |batch| == 0 then 0
    else if !Fails(batch[|batch| - 1], troubles) then |batch|
    else Successes(batch[..|batch| - 1], troubles)
  }

  lemma {:induction false} NewestIsLastSuccess<T>(H: Hasher<T>, depth: nat, p: Progress<T>, newest: Option<Signature>,
                                                  batch: seq<Tx<T>>, troubles: Troubles)
    ensures var n := Successes(batch, troubles);
            ProcessBatch(H, depth, p, newest, batch, troubles).1
            == if n == 0 then newest else Some(batch[n - 1].signature)
    decreases |batch|
  {
    if |batch| > 0 {
      SuccessesOfTail(batch, troubles);
      var newest' := if Fails(batch[0], troubles) then newest else Some(batch[0].signature);
      var q := IndexLines(H, depth, p, Handled(batch[0], troubles));
      NewestIsLastSuccess(H, depth, q, newest', batch[1..], troubles);
    }
  }

  lemma {:induction false} SuccessesOfTail<T>(batch: seq<Tx<T>>, troubles: Troubles)
    requires |batch| > 0
    ensures var n := Successes(batch[1..], troubles);
            Successes(batch, troubles) == if n > 0 then n + 1 else if Fails(batch[0], troubles) then 0 else 1
  {
    var tail := batch[1..];
    var n := Successes(tail, troubles);
    forall k | n + 1 <= k < |batch| ensures Fails(batch[k], troubles) {
      assert batch[k] == tail[k - 1];
    }
    assert n > 0 ==> batch[n] == tail[n - 1];
  }

  /** The effect of a whole batch: its handled lines, then the cursor at its last success, if Redis takes it. */
  lemma {:induction false} BatchEffect<T>(H: Hasher<T>, depth: nat, p: Progress<T>, batch: seq<Tx<T>>,
      troubles: Troubles)
    ensures var r, n := IndexLines(H, depth, p, HandledLines(batch, troubles)), Successes(batch, troubles);
            FinishTick(H, depth, p, batch, troubles).backend
            == if n > 0 && Reach(r.redis) > 0 then r.backend.(cursor := Some(batch[n - 1].signature)) else r.backend
  {
    BatchIsLines(H, depth, p, None, batch, troubles);
    NewestIsLastSuccess(H, depth, p, None, batch, troubles);
  }

  /** A tick with one new transaction that is answered without log messages: only the cursor moves, and it does. */
  lemma {:induction false} MissingLogsPassed<T>(H: Hasher<T>, depth: nat, p: Progress<T>, tx: Tx<T>)
    requires Reach(p.redis) > 0
    ensures FinishTick(H, depth, p, [tx], map[tx.signature := NoLogs]).backend
         == p.backend.(cursor := Some(tx.signature))
  {
    OneTransaction(H, depth, p, tx, map[tx.signature := NoLogs]);
  }

  /** One that fails after n of its lines: those are processed, and the cursor stays. */
  lemma {:induction false} FailurePartlyDone<T>(H: Hasher<T>, depth: nat, p: Progress<T>, tx: Tx<T>, n: nat)
    requires n <= |tx.lines|
    ensures FinishTick(H, depth, p, [tx], map[tx.signature := FailsAfter(n)]).backend
         == IndexLines(H, depth, p, tx.lines[..n]).backend
  {
    OneTransaction(H, depth, p, tx, map[tx.signature := FailsAfter(n)]);
  }

  /** One that goes through: all its lines are processed, and the cursor moves if Redis takes it. */
  lemma {:induction false} SuccessAllDone<T>(H: Hasher<T>, depth: nat, p: Progress<T>, tx: Tx<T>)
    ensures var q := IndexLines(H, depth, p, tx.lines);
            FinishTick(H, depth, p, [tx], map[]).backend
            == if Reach(q.redis) > 0 then q.backend.(cursor := Some(tx.signature)) else q.backend
  {
    OneTransaction(H, depth, p, tx, map[]);
  }

  lemma {:induction false} OneTransaction<T>(H: Hasher<T>, depth: nat, p: Progress<T>, tx: Tx<T>, troubles: Troubles)
    ensures var q := IndexLines(H, depth, p, Handled(tx, troubles));
            FinishTick(H, depth, p, [tx], troubles).backend
            == if Fails(tx, troubles) || Reach(q.redis) == 0 then q.backend
               else q.backend.(cursor := Some(tx.signature))
  {
    assert [tx][1..] == [] && [tx][0] == tx;
    assert HandledLines([tx], troubles) == Handled(tx, troubles) + [] == Handled(tx, troubles);
    SuccessesOfTail([tx], troubles);
    BatchEffect(H, depth, p, [tx], troubles);
  }

  /** The cursor a tick leaves if Redis answers. */
  function CursorAfter<T>(H: Hasher<T>, depth: nat, p: Progress<T>, ledger: seq<Tx<T>>, limit: nat,
                          troubles: Troubles): Option<Signature>
  {
    var start := BatchStart(ledger, p.backend.cursor, limit);
    var newest := ProcessBatch(H, depth, p, None, ledger[start..], troubles).1;
    if newest.None? then p.backend.cursor else newest
  }

  /** With the cursor on transaction `q` and no more than the limit after it, the batch starts right behind it. */
  lemma StartBehind<T>(ledger: seq<Tx<T>>, q: nat, limit: nat, size: nat)
    requires DistinctTxs(ledger) && q < |ledger| && |ledger| - q <= size <= limit
    ensures BatchStart(ledger, Some(ledger[q].signature), limit) == q + 1
  {
    NewerThan(ledger, q);
  }

  /** The next batch starts behind the last success of this one. */
  lemma {:induction false} NextStart<T>(H: Hasher<T>, depth: nat, p: Progress<T>, ledger: seq<Tx<T>>, limit: nat,
                                        troubles: Troubles)
    requires DistinctTxs(ledger)
    ensures var start := BatchStart(ledger, p.backend.cursor, limit);
            BatchStart(ledger, CursorAfter(H, depth, p, ledger, limit, troubles), limit)
            == start + Successes(ledger[start..], troubles)
  {
    var start := BatchStart(ledger, p.backend.cursor, limit);
    var batch := ledger[start..];
    var n := Successes(batch, troubles);
    var next := CursorAfter(H, depth, p, ledger, limit, troubles);
    NewestIsLastSuccess(H, depth, p, None, batch, troubles);
    if n > 0 {
      assert next == Some(ledger[start + n - 1].signature);
      StartBehind(ledger, start + n - 1, limit, |ledger| - start);
    }
  }

  /**
   A transaction of a tick is looked at again by the next tick exactly when neither it nor a newer
   one of the same tick succeeded. Otherwise the cursor has passed it, also if it had failed, or if
   its log messages were missing.
   */
  lemma {:induction false} FailureRevisitedExactly<T>(H: Hasher<T>, depth: nat, p: Progress<T>, ledger: seq<Tx<T>>,
      limit: nat, troubles: Troubles, t: nat)
    requires DistinctTxs(ledger)
    requires BatchStart(ledger, p.backend.cursor, limit) <= t < |ledger|
    ensures BatchStart(ledger, CursorAfter(H, depth, p, ledger, limit, troubles), limit) <= t
            <==> forall j | t <= j < |ledger| ::
                   ledger[j].signature in troubles && troubles[ledger[j].signature].FailsAfter?
  {
    NextStart(H, depth, p, ledger, limit, troubles);
    LastSuccessDecides(ledger, BatchStart(ledger, p.backend.cursor, limit), troubles, t);
  }

  lemma {:induction false} LastSuccessDecides<T>(ledger: seq<Tx<T>>, start: nat, troubles: Troubles, t: nat)
    requires start <= t < |ledger|
    ensures start + Successes(ledger[start..], troubles) <= t
            <==> forall j | t <= j < |ledger| :: Fails(ledger[j], troubles)
  {
    var batch := ledger[start..];
    var n := Successes(batch, troubles);
    forall j | start + n <= j < |ledger| ensures Fails(ledger[j], troubles) {
      assert ledger[j] == batch[j - start];
    }
    assert n > 0 ==> ledger[start + n - 1] == batch[n - 1];
  }
}
