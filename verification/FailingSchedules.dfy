/** Schedules in which the backend does go wrong: why the conditions of the other results are needed. */
module FailingSchedules {
  import opened Wrappers
  import opened Merkle
  import opened Events
  import opened TreeStore
  import opened CrashRecovery
  import opened Incremental
  import opened RedisLoss
  import opened Database
  import opened Pagination
  import opened Indexer
  import opened IndexerFaults
  import opened LogImage
  import opened Batches
  import opened BackendSteps
  import opened IndexerRuns

  function OneDeposit<T>(signature: Signature, x: T, leafIndex: i64, root: T): Tx<T> {
    Tx(signature, [Deposited(x, leafIndex, root)])
  }

  /** A backend that has just been started for the first time. */
  function Started<T>(H: Hasher<T>, depth: nat): Node<T> {
    Node(Backend(Tables(map[], [], map[]), Grown(H, [], depth), None), 0, true)
  }

  /** A tick in which nothing fails, except what `troubles` says. */
  function Smooth(seen: nat, depth: nat, troubles: Troubles): Action {
    TickAt(seen, true, seen, [Stretch((seen + 1) * (depth + 3), false)], troubles)
  }

  lemma {:induction false} StartedIsSound<T>(H: Hasher<T>, depth: nat, ledger: seq<Tx<T>>)
    ensures FullyStored(H, depth, ledger, Started(H, depth))
  {
    GrownIsStored(H, [], depth);
    assert Flatten(ledger)[..0] == [];
    assert TableOf<T>([]) == map[];
    var c: seq<T> := [];
    assert c[..0] == c;
    StoredIsBetween(H, Grown(H, [], depth), c, 0, depth);
  }

  lemma {:induction false} FirstTick<T>(H: Hasher<T>, depth: nat, limit: nat, sig: Signature, x: T, root: T, s: Node<T>)
    requires limit > 0 && s.up && s.backend.cursor == None && s.backend.tree == EmptyStore()
    requires s.backend.db == Tables(map[], [], map[]) && s.upto == 0
    ensures var ledger, tick := [OneDeposit(sig, x, 0, root)], Smooth(1, depth, map[]);
            var t := Act(H, depth, limit, ledger, s, tick).backend.tree;
            && KeepsUp(limit, ledger, s, tick)
            && Spoilt(t) && t.root == Some(Bare(H, x, depth)) && GetSize(t) == 1
  {
    var ledger, tick := [OneDeposit(sig, x, 0, root)], Smooth(1, depth, map[]);
    var tx := ledger[0];
    assert ledger[..1] == ledger && ledger[..0] == [];
    assert StartOf(limit, ledger, s, tick) == 0;
    assert BatchOf(limit, ledger, s, tick) == ledger;
    NoTroubleIsOrderly(ledger);
    FlattenOne(tx);
    var p := Progress(s.backend, tick.redis);
    BatchIsLines(H, depth, p, None, ledger, map[]);
    assert tx.lines[1..] == [];
    assert IndexLines(H, depth, p, tx.lines) == IndexLine(H, depth, p, tx.lines[0]);
    FirstLeaf(H, x, depth, Reach(tick.redis));
  }

  /**
   Redis is lost after the first start and before the first deposit, and the process goes on: the
   tree the next tick builds counts every row and has a wrong root, unless it has at most two leaves.
   The node is unsound, and by `SpoiltForGood` no restart repairs it.
   */
  lemma {:induction false} LossBeforeFirstLeaf<T(!new)>(H: Hasher<T>, depth: nat, limit: nat, sig: Signature, x: T,
      root: T)
    requires Injective(H) && NeverEmpty(H) && limit > 0
    ensures var ledger, actions := [OneDeposit(sig, x, 0, root)], [RedisLost, Smooth(1, depth, map[])];
            var s := Started(H, depth);
            var e := ActAll(H, depth, limit, ledger, s, actions);
            && FullyStored(H, depth, ledger, s)
            && AllKeepUp(H, depth, limit, ledger, s, actions)
            && GetSize(e.backend.tree) == 1 && !NodeSound(H, depth, ledger, e)
            && (e.backend.tree.root == Some(Root(H, [x], depth)) <==> depth <= 1)
  {
    var ledger, tick := [OneDeposit(sig, x, 0, root)], Smooth(1, depth, map[]);
    var s := Started(H, depth);
    var actions := [RedisLost, tick];
    StartedIsSound(H, depth, ledger);
    var s1 := Act(H, depth, limit, ledger, s, RedisLost);
    FirstTick(H, depth, limit, sig, x, root, s1);
    var e := Act(H, depth, limit, ledger, s1, tick);
    assert actions[1..] == [tick] && [tick][1..] == [];
    assert ActAll(H, depth, limit, ledger, s, actions) == ActAll(H, depth, limit, ledger, s1, [tick]) == e;
    assert AllKeepUp(H, depth, limit, ledger, s1, [tick]);
    if e.upto <= |Flatten(ledger)| {
      SpoiltIsNotRecoverable(H, e.backend.tree, RowsHeld(ledger, e), depth);
    }
    BareRootExact(H, x, depth);
  }

  /**
   The first of two transactions fails, the second does not: the database is left with leaf 1 and
   without leaf 0, the cursor is behind both, and the next tick finds nothing new.
   */
  lemma {:induction false} FailureLeavesGap<T>(H: Hasher<T>, depth: nat, limit: nat, a: Signature, b: Signature,
      x: T, y: T, root: T, root': T)
    requires limit >= 2 && a != b
    ensures var ledger := [OneDeposit(a, x, 0, root), OneDeposit(b, y, 1, root')];
            var e := Act(H, depth, limit, ledger, Started(H, depth), Smooth(2, depth, map[a := FailsAfter(0)]));
            && !KeepsUp(limit, ledger, Started(H, depth), Smooth(2, depth, map[a := FailsAfter(0)]))
            && e.backend.db.commitments == map[1 := y]
            && NewCount(NewestFirst(ledger), e.backend.cursor) == 0
  {
    var ledger := [OneDeposit(a, x, 0, root), OneDeposit(b, y, 1, root')];
    var troubles := map[a := FailsAfter(0)];
    var s, tick := Started(H, depth), Smooth(2, depth, map[a := FailsAfter(0)]);
    assert ledger[..2] == ledger;
    assert BatchOf(limit, ledger, s, tick) == ledger;
    var p := Progress(s.backend, tick.redis);
    var line := ledger[1].lines[0];
    assert Handled(ledger[0], troubles) == [] && Handled(ledger[1], troubles) == [line];
    assert ledger[1..] == [ledger[1]] && ledger[1..][1..] == [];
    assert HandledLines(ledger[1..], troubles) == [line] + [];
    assert HandledLines(ledger, troubles) == [line];
    BatchIsLines(H, depth, p, None, ledger, troubles);
    NewestIsLastSuccess(H, depth, p, None, ledger, troubles);
    assert Successes(ledger, troubles) == 2;
    assert [line][1..] == [];
    assert IndexLines(H, depth, p, [line]) == IndexLine(H, depth, p, line);
    assert Untouched(ledger[1], troubles) ==> false;
    LineCost(H, depth, p, line);
    NewerThan(ledger, 1);
  }
}
