/**
 The indexer (app/backend/src/indexer.rs) and the startup of the backend (main.rs): from
 the program's log lines to the database and the stored tree.
 */
module Indexer {
  import opened Wrappers
  import opened Merkle
  import opened Events
  import opened TreeStore
  import opened TreeCache
  import opened Database
  import opened Pagination

  /** A transaction that mentions the pool, with the payloads of its `Program data:` lines. */
  datatype Tx<T> = Tx(signature: Signature, lines: seq<Payload<T>>)

  datatype Backend<T> = Backend(db: Tables<T>, tree: Tree<T>, cursor: Option<Signature>)

  /** The backend, and what its Redis connection will do. */
  datatype Progress<T> = Progress(backend: Backend<T>, redis: Redis)

  /** One log line: insert unless present; a failed tree update is only logged. */
  function IndexLine<T>(H: Hasher<T>, depth: nat, p: Progress<T>, line: Payload<T>): Progress<T> {
    var b := p.backend;
    match line
    case Deposited(commitment, leafIndex, newRoot) =>
      if leafIndex in b.db.commitments then p
      else
        var ws := AddLeafWrites(H, b.tree, AsUsize(leafIndex), commitment, depth);
        Progress(b.(db := InsertDeposit(b.db, leafIndex, commitment, newRoot),
                    tree := Run(b.tree, ws, Reach(p.redis))),
                 After(p.redis, |ws|))
    case Withdrawn(nullifierHash, recipient) =>
      if nullifierHash in b.db.nullifiers then p
      else p.(backend := b.(db := InsertNullifier(b.db, nullifierHash, NullifierRow(recipient, 0))))
    case Ignored => p
  }

  function IndexLines<T>(H: Hasher<T>, depth: nat, p: Progress<T>, lines: seq<Payload<T>>): Progress<T>
    decreases |lines|
  {
    if |lines| == 0 then p else IndexLines(H, depth, IndexLine(H, depth, p, lines[0]), lines[1..])
  }

  /**
   What can go wrong with one transaction of a tick. `FailsAfter(n)`: an RPC or database error ends
   it when `n` of its lines are done; a row committed although its reply was lost counts as done, with
   a tree update that Redis refused. `NoLogs`: the RPC answers without log messages, which is no error.
   */
  datatype Trouble = FailsAfter(lines: nat) | NoLogs

  type Troubles = map<Signature, Trouble>

  function TroubleOf(troubles: Troubles, signature: Signature): Option<Trouble> {
    if signature in troubles then Some(troubles[signature]) else None
  }

  predicate IsError(trouble: Option<Trouble>) {
    trouble.Some? && trouble.value.FailsAfter?
  }

  /** The lines that are processed. */
  function Taken<T>(lines: seq<Payload<T>>, trouble: Option<Trouble>): seq<Payload<T>> {
    match trouble
    case None => lines
    case Some(NoLogs) => []
    case Some(FailsAfter(n)) => lines[..Min(n, |lines|)]
  }

  predicate Fails<T>(tx: Tx<T>, troubles: Troubles) {
    IsError(TroubleOf(troubles, tx.signature))
  }

  function Handled<T>(tx: Tx<T>, troubles: Troubles): seq<Payload<T>> {
    Taken(tx.lines, TroubleOf(troubles, tx.signature))
  }

  /** A batch oldest first; transactions that fail are passed over. */
  function ProcessBatch<T>(H: Hasher<T>, depth: nat, p: Progress<T>, newest: Option<Signature>,
                           batch: seq<Tx<T>>, troubles: Troubles): (Progress<T>, Option<Signature>)
    decreases |batch|
  {
    if |batch| == 0 then (p, newest)
    else
      ProcessBatch(H, depth, IndexLines(H, depth, p, Handled(batch[0], troubles)),
                   if Fails(batch[0], troubles) then newest else Some(batch[0].signature), batch[1..], troubles)
  }

  function StoreCursor<T>(p: Progress<T>, newest: Option<Signature>): Progress<T> {
    if newest.None? then p
    else Progress(if Reach(p.redis) > 0 then p.backend.(cursor := newest) else p.backend, After(p.redis, 1))
  }

  /** A whole batch, then the cursor. */
  function FinishTick<T>(H: Hasher<T>, depth: nat, p: Progress<T>, batch: seq<Tx<T>>, troubles: Troubles): Progress<T> {
    var (q, newest) := ProcessBatch(H, depth, p, None, batch, troubles);
    StoreCursor(q, newest)
  }

  /** `getSignaturesForAddress`: the signatures of the ledger, newest first. */
  function NewestFirst<T>(ledger: seq<Tx<T>>): (s: seq<Signature>)
    ensures |s| == |ledger|
    ensures forall i | 0 <= i < |s| :: s[i] == ledger[|ledger| - 1 - i].signature
  {
    seq(|ledger|, i requires 0 <= i < |ledger| => ledger[|ledger| - 1 - i].signature)
  }

  /** `getTransaction`: the lines logged under a signature. */
  function LinesOf<T>(ledger: seq<Tx<T>>, signature: Signature): seq<Payload<T>> {
    if |ledger| == 0 then []
    else if ledger[0].signature == signature then ledger[0].lines
    else LinesOf(ledger[1..], signature)
  }

  ghost predicate DistinctTxs<T>(ledger: seq<Tx<T>>) {
    forall i, j | 0 <= i < j < |ledger| :: ledger[i].signature != ledger[j].signature
  }

  lemma {:induction false} LinesOfTx<T>(ledger: seq<Tx<T>>, i: nat)
    requires DistinctTxs(ledger) && i < |ledger|
    ensures LinesOf(ledger, ledger[i].signature) == ledger[i].lines
    decreases |ledger|
  {
    if i > 0 { LinesOfTx(ledger[1..], i - 1); }
  }

  /** Where the batch of a tick starts in the ledger. */
  function BatchStart<T>(ledger: seq<Tx<T>>, cursor: Option<Signature>, limit: nat): (start: nat)
    ensures start <= |ledger|
  {
    |ledger| - Min(NewCount(NewestFirst(ledger), cursor), limit)
  }

  /** With the cursor on transaction `q` exactly the later ones are new. */
  lemma NewerThan<T>(ledger: seq<Tx<T>>, q: nat)
    requires DistinctTxs(ledger) && q < |ledger|
    ensures NewCount(NewestFirst(ledger), Some(ledger[q].signature)) == |ledger| - 1 - q
  {
    var s := NewestFirst(ledger);
    assert s[|ledger| - 1 - q] == ledger[q].signature;
    IndexOfDistinct(s, |ledger| - 1 - q);
  }

  class Indexer<T(==)> {
    const H: Hasher<T>
    const depth: nat
    const maxPages: nat
    const pageSize: nat
    const db: Db<T>
    const cache: Cache<T>

    constructor (H: Hasher<T>, depth: nat, maxPages: nat, pageSize: nat, db: Db<T>, cache: Cache<T>)
      ensures this.H == H && this.depth == depth && this.maxPages == maxPages && this.pageSize == pageSize
      ensures this.db == db && this.cache == cache
    {
      this.H, this.depth, this.maxPages, this.pageSize, this.db, this.cache := H, depth, maxPages, pageSize, db, cache;
    }

    function State(): Progress<T>
      reads db, cache
    {
      Progress(Backend(db.Contents(), cache.Tree(), cache.lastSignature), cache.redis)
    }

    /** Succeeds unless an error ended it, and processes the lines up to there. */
    method ProcessTransaction(lines: seq<Payload<T>>, trouble: Option<Trouble>) returns (ok: bool)
      modifies db, cache
      ensures ok <==> !IsError(trouble)
      ensures State() == IndexLines(H, depth, old(State()), Taken(lines, trouble))
    {
      if trouble == Some(NoLogs) {
        return true;
      }
      ghost var taken := Taken(lines, trouble);
      for i := 0 to |lines|
        invariant i <= |taken| && taken[..i] == lines[..i]
        invariant IndexLines(H, depth, State(), taken[i..]) == IndexLines(H, depth, old(State()), taken)
      {
        ok := ProcessLine(lines[i], trouble == Some(FailsAfter(i)));
        if !ok { return; }
        assert taken[i..][0] == lines[i] && taken[i..][1..] == taken[i + 1..];
      }
      return !IsError(trouble);
    }

    /** `fails`: the database refuses the first query of this line. */
    method ProcessLine(line: Payload<T>, fails: bool) returns (ok: bool)
      modifies db, cache
      ensures ok <==> !fails
      ensures State() == if ok then IndexLine(H, depth, old(State()), line) else old(State())
    {
      if fails {
        return false;
      }
      match line {
        case Deposited(commitment, leafIndex, newRoot) =>
          var known := db.CommitmentExists(leafIndex);
          if !known {
            db.SaveDeposit(leafIndex, commitment, newRoot);
            var added;
            ghost var calls;
            added, calls := AddLeaf(H, cache, AsUsize(leafIndex), commitment, depth);
          }
        case Withdrawn(nullifierHash, recipient) =>
          var used := db.IsNullifierUsed(nullifierHash);
          if !used {
            db.SaveNullifier(nullifierHash, recipient, 0);
          }
        case Ignored =>
      }
      return true;
    }

    /**
     `cursorRead` says whether Redis answered; if not, the tick starts without a cursor. If a page
     of signatures could not be fetched the tick ends with an error.
     */
    method Tick(ledger: seq<Tx<T>>, cursorRead: bool, pagesFetched: bool, troubles: Troubles) returns (ok: bool)
      requires DistinctTxs(ledger)
      modifies db, cache
      ensures ok <==> pagesFetched
      ensures !ok ==> State() == old(State())
      ensures ok ==>
        var cursor := if cursorRead then old(cache.lastSignature) else None;
        var batch := ledger[BatchStart(ledger, cursor, Entries(maxPages, pageSize))..];
        State() == FinishTick(H, depth, old(State()), batch, troubles)
    {
      var lastProcessed := if cursorRead then cache.lastSignature else None;
      if !pagesFetched {
        return false;
      }
      var newestFirst := NewestFirst(ledger);
      var allSigs, reachedLast := Paginate(newestFirst, lastProcessed, maxPages, pageSize);
      if |allSigs| == 0 {
        return true;
      }
      var newestSignature := ProcessOldestFirst(ledger, allSigs, troubles);
      if newestSignature.Some? {
        var stored := cache.SetLastSignature(newestSignature.value);
      }
      return true;
    }

    /** The reversed walk over the collected signatures. */
    method ProcessOldestFirst(ledger: seq<Tx<T>>, allSigs: seq<Signature>, troubles: Troubles)
      returns (newest: Option<Signature>)
      requires DistinctTxs(ledger)
      requires |allSigs| <= |ledger| && allSigs == NewestFirst(ledger)[..|allSigs|]
      modifies db, cache
      ensures (State(), newest)
           == ProcessBatch(H, depth, old(State()), None, ledger[|ledger| - |allSigs|..], troubles)
    {
      newest := None;
      for i := |allSigs| downto 0
        invariant ProcessBatch(H, depth, State(), newest, ledger[|ledger| - i..], troubles)
               == ProcessBatch(H, depth, old(State()), None, ledger[|ledger| - |allSigs|..], troubles)
      {
        var at := |ledger| - 1 - i;
        var signature := allSigs[i];
        OneOfBatch(H, depth, State(), newest, ledger, at, troubles);
        newest := ProcessOne(ledger, at, signature, newest, troubles);
      }
    }

    /** One signature of the walk: fetched and processed; it becomes the newest unless that failed. */
    method ProcessOne(ledger: seq<Tx<T>>, ghost at: nat, signature: Signature, newest: Option<Signature>,
        troubles: Troubles)
      returns (newest': Option<Signature>)
      requires DistinctTxs(ledger) && at < |ledger| && signature == ledger[at].signature
      modifies db, cache
      ensures State() == IndexLines(H, depth, old(State()), Handled(ledger[at], troubles))
      ensures newest' == if Fails(ledger[at], troubles) then newest else Some(signature)
    {
      LinesOfTx(ledger, at);
      var ok := ProcessTransaction(LinesOf(ledger, signature), TroubleOf(troubles, signature));
      if !ok {
        return newest;
      }
      return Some(signature);
    }
  }

  /** The batch from transaction `at` on: that transaction, then the rest. */
  lemma {:induction false} OneOfBatch<T>(H: Hasher<T>, depth: nat, p: Progress<T>, newest: Option<Signature>,
      ledger: seq<Tx<T>>, at: nat, troubles: Troubles)
    requires at < |ledger|
    ensures var q := IndexLines(H, depth, p, Handled(ledger[at], troubles));
            ProcessBatch(H, depth, p, newest, ledger[at..], troubles)
            == ProcessBatch(H, depth, q, if Fails(ledger[at], troubles) then newest else Some(ledger[at].signature),
                            ledger[at + 1..], troubles)
  {
    assert ledger[at..][1..] == ledger[at + 1..];
  }

  /** Initialise the tree if it has neither leaves nor a root. */
  method InitIfMissing<T>(H: Hasher<T>, cache: Cache<T>, depth: nat) returns (ok: bool)
    modifies cache
    ensures Executed(cache, StartupInit(H, old(cache.Tree()), depth), ok)
  {
    ok := true;
    if cache.size.GetOr(0) == 0 && cache.root.None? {
      ok := InitEmptyTree(H, cache, depth);
    }
  }

  /** `main` before it serves: initialise the tree if there is none, then add the rows it lacks. */
  method Startup<T>(H: Hasher<T>, db: Db<T>, cache: Cache<T>, depth: nat) returns (ok: bool)
    modifies cache
    ensures Executed(cache, StartupWrites(H, old(cache.Tree()), OrderedRows(old(db.commitments)), depth), ok)
  {
    ghost var t0, r0 := cache.Tree(), cache.redis;
    ghost var init := StartupInit(H, t0, depth);
    var rows := db.GetCommitments();
    ok := InitIfMissing(H, cache, depth);
    ghost var rest := SyncWrites(H, Finish(t0, init), rows, GetSize(Finish(t0, init)), depth);
    HalfwayOn(t0, r0, init + rest, t0, r0, init, rest);
    if !ok { return; }

    var currentSize := cache.size.GetOr(0);
    if |rows| > currentSize {
      ok := SyncRows(H, cache, rows, currentSize, depth);
    }
  }

  /** The loop over the rows from the current size on. */
  method SyncRows<T>(H: Hasher<T>, cache: Cache<T>, rows: seq<Row<T>>, from: nat, depth: nat) returns (ok: bool)
    requires from <= |rows|
    modifies cache
    ensures Executed(cache, SyncWrites(H, old(cache.Tree()), rows, from, depth), ok)
  {
    ghost var t0, r0 := cache.Tree(), cache.redis;
    ghost var ws := SyncWrites(H, t0, rows, from, depth);
    for i := from to |rows|
      invariant Halfway(t0, r0, ws, cache.Tree(), cache.redis, SyncWrites(H, cache.Tree(), rows, i, depth))
      invariant cache.lastSignature == old(cache.lastSignature)
    {
      ghost var here := AddLeafWrites(H, cache.Tree(), AsUsize(rows[i].leafIndex), rows[i].commitment, depth);
      ghost var after := SyncWrites(H, Finish(cache.Tree(), here), rows, i + 1, depth);
      ok := SyncRow(H, cache, rows[i], depth, t0, r0, ws, here, after);
      if !ok { return; }
    }
    return true;
  }

  /** One row, whose writes `here` are part of a longer list `ws` with `after` still to come. */
  method SyncRow<T>(H: Hasher<T>, cache: Cache<T>, row: Row<T>, depth: nat,
      ghost t0: Tree<T>, ghost r0: Redis, ghost ws: seq<Write<T>>, ghost here: seq<Write<T>>,
      ghost after: seq<Write<T>>)
    returns (ok: bool)
    requires here == AddLeafWrites(H, cache.Tree(), AsUsize(row.leafIndex), row.commitment, depth)
    requires Halfway(t0, r0, ws, cache.Tree(), cache.redis, here + after)
    modifies cache
    ensures cache.lastSignature == old(cache.lastSignature)
    ensures if ok then && cache.Tree() == Finish(old(cache.Tree()), here)
                       && Halfway(t0, r0, ws, cache.Tree(), cache.redis, after)
            else && cache.Tree() == Run(t0, ws, Reach(r0))
                 && !Lasts(r0, |ws|) && cache.redis == After(r0, |ws|)
  {
    HalfwayOn(t0, r0, ws, cache.Tree(), cache.redis, here, after);
    var added;
    ghost var calls;
    added, calls := AddLeaf(H, cache, AsUsize(row.leafIndex), row.commitment, depth);
    ok := added.Some?;
  }
}
