/**
 Runs of the backend. The database stays a gap-free image of the log over every schedule that
 keeps up; whether the tree stays recoverable is decided exactly.
 */
module IndexerRuns {
  import opened Wrappers
  import opened Arithmetic
  import opened Merkle
  import opened Events
  import opened TreeStore
  import opened CrashRecovery
  import opened Incremental
  import opened RedisLoss
  import opened Database
  import opened Pagination
  import opened Indexer
  import opened IndexerFaults
  import opened LogImage
  import opened Batches
  import opened BackendSteps

  // ---------- whole schedules ----------

  /** Whether the store ends spoilt: a tick spoiled it and Redis was not lost again since. */
  ghost predicate EndsSpoilt<T>(H: Hasher<T>, depth: nat, limit: nat, ledger: seq<Tx<T>>, s: Node<T>, spoilt: bool,
      actions: seq<Action>)
    decreases |actions|
  {
    if |actions| == 0 then spoilt
    else
      var now := !actions[0].RedisLost? && (spoilt || Spoils(depth, limit, ledger, s, actions[0]));
      EndsSpoilt(H, depth, limit, ledger, Act(H, depth, limit, ledger, s, actions[0]), now, actions[1..])
  }

  lemma {:induction false} RunFrom<T>(H: Hasher<T>, depth: nat, limit: nat, ledger: seq<Tx<T>>, s: Node<T>,
      spoilt: bool, actions: seq<Action>)
    requires WellFormed(Flatten(ledger)) && LogSound(ledger, s)
    requires if spoilt then Spoilt(s.backend.tree) else NodeSound(H, depth, ledger, s)
    requires AllKeepUp(H, depth, limit, ledger, s, actions)
    ensures var e := ActAll(H, depth, limit, ledger, s, actions);
            && LogSound(ledger, e)
            && if EndsSpoilt(H, depth, limit, ledger, s, spoilt, actions) then Spoilt(e.backend.tree)
               else NodeSound(H, depth, ledger, e)
    decreases |actions|
  {
    if |actions| > 0 {
      var a := actions[0];
      var now := !a.RedisLost? && (spoilt || Spoils(depth, limit, ledger, s, a));
      ActKeepsLog(H, depth, limit, ledger, s, a);
      if !spoilt {
        ActIsSound(H, depth, limit, ledger, s, a);
      } else if !a.RedisLost? {
        SpoiltForGood(H, depth, limit, ledger, s, a);
      }
      RunFrom(H, depth, limit, ledger, Act(H, depth, limit, ledger, s, a), now, actions[1..]);
    }
  }

  /**
   Every schedule of ticks, deaths, outages, Redis losses and restarts: the database is the image of
   the log, and the node is sound, so that a restart repairs it, exactly when no tick spoiled the
   store since Redis was lost last.
   */
  lemma {:induction false} BackendRunIsSound<T>(H: Hasher<T>, depth: nat, limit: nat, ledger: seq<Tx<T>>,
      s: Node<T>, actions: seq<Action>)
    requires WellFormed(Flatten(ledger)) && NodeSound(H, depth, ledger, s)
    requires AllKeepUp(H, depth, limit, ledger, s, actions)
    ensures LogSound(ledger, ActAll(H, depth, limit, ledger, s, actions))
    ensures NodeSound(H, depth, ledger, ActAll(H, depth, limit, ledger, s, actions))
            <==> !EndsSpoilt(H, depth, limit, ledger, s, false, actions)
  {
    RunFrom(H, depth, limit, ledger, s, false, actions);
    var e := ActAll(H, depth, limit, ledger, s, actions);
    if Spoilt(e.backend.tree) {
      SpoiltIsNotRecoverable(H, e.backend.tree, RowsHeld(ledger, e), depth);
    }
  }

  /** The process runs on an empty store with no row in the database. */
  ghost predicate Exposed<T>(s: Node<T>) {
    s.up && s.backend.tree == EmptyStore() && s.backend.db.commitments == map[]
  }

  /** Redis is lost only while the process is down or the database has a row. */
  ghost predicate LossesGuarded<T>(H: Hasher<T>, depth: nat, limit: nat, ledger: seq<Tx<T>>, s: Node<T>,
      actions: seq<Action>)
    decreases |actions|
  {
    |actions| > 0 ==>
      && (actions[0].RedisLost? ==> !s.up || s.backend.db.commitments != map[])
      && LossesGuarded(H, depth, limit, ledger, Act(H, depth, limit, ledger, s, actions[0]), actions[1..])
  }

  lemma {:induction false} StaysUnexposed<T>(H: Hasher<T>, depth: nat, limit: nat, ledger: seq<Tx<T>>, s: Node<T>,
      a: Action)
    requires WellFormed(Flatten(ledger)) && NodeSound(H, depth, ledger, s) && KeepsUp(limit, ledger, s, a)
    requires !Exposed(s) && (a.RedisLost? ==> !s.up || s.backend.db.commitments != map[])
    ensures !Exposed(Act(H, depth, limit, ledger, s, a))
  {
    var s' := Act(H, depth, limit, ledger, s, a);
    if Ticks(ledger, s, a) {
      TickIsSound(H, depth, limit, ledger, s, a);
      var c, c' := RowsHeld(ledger, s), RowsHeld(ledger, s');
      LeavesGrow(Flatten(ledger), s.upto, s'.upto);
      assert |c| == 0 ==> TableOf(c) == map[];
      assert |c'| > 0 ==> 0 in TableOf(c');
      assert Between(H, s'.backend.tree, c', depth) ==> 0 in s'.backend.tree.empties;
    } else if a.Restart? {
      RestartIsSound(H, depth, limit, ledger, s, a);
      assert s'.up ==> 0 in s'.backend.tree.empties;
    }
  }

  /** With guarded losses nothing is ever spoilt. */
  lemma {:induction false} GuardedNeverSpoilt<T>(H: Hasher<T>, depth: nat, limit: nat, ledger: seq<Tx<T>>,
      s: Node<T>, actions: seq<Action>)
    requires WellFormed(Flatten(ledger)) && NodeSound(H, depth, ledger, s) && !Exposed(s)
    requires AllKeepUp(H, depth, limit, ledger, s, actions)
    requires LossesGuarded(H, depth, limit, ledger, s, actions)
    ensures !EndsSpoilt(H, depth, limit, ledger, s, false, actions)
    decreases |actions|
  {
    if |actions| > 0 {
      ActIsSound(H, depth, limit, ledger, s, actions[0]);
      StaysUnexposed(H, depth, limit, ledger, s, actions[0]);
      GuardedNeverSpoilt(H, depth, limit, ledger, Act(H, depth, limit, ledger, s, actions[0]), actions[1..]);
    }
  }

  // ---------- keeping up ----------

  /** If no more than `limit` signatures are new to it, a tick keeps up. */
  lemma KeepsUpWithinLimit<T>(limit: nat, ledger: seq<Tx<T>>, s: Node<T>, a: Action)
    requires DistinctTxs(ledger) && CursorSound(ledger, s)
    requires WithinLimit(limit, ledger, s, a)
    ensures KeepsUp(limit, ledger, s, a)
  {
    assert ledger[..0] == [];
    if Ticks(ledger, s, a) && a.cursorRead && s.backend.cursor.Some? {
      var p: nat :| CursorAt(ledger, s, p);
      CursorWithin(ledger, p, a.seen);
    }
  }

  /** What is new to the tick fits its pages, and what fails in it is followed by nothing that succeeds. */
  ghost predicate WithinLimit<T>(limit: nat, ledger: seq<Tx<T>>, s: Node<T>, a: Action) {
    Ticks(ledger, s, a) ==>
      && NewCount(NewestFirst(ledger[..a.seen]), if a.cursorRead then s.backend.cursor else None) <= limit
      && Orderly(BatchOf(limit, ledger, s, a), a.troubles)
  }

  ghost predicate AllWithinLimit<T>(H: Hasher<T>, depth: nat, limit: nat, ledger: seq<Tx<T>>, s: Node<T>,
      actions: seq<Action>)
    decreases |actions|
  {
    |actions| > 0 ==>
      && WithinLimit(limit, ledger, s, actions[0])
      && AllWithinLimit(H, depth, limit, ledger, Act(H, depth, limit, ledger, s, actions[0]), actions[1..])
  }

  /** The cursor at transaction `p`, seen from a node that knows the first `seen` ones. */
  lemma CursorWithin<T>(ledger: seq<Tx<T>>, p: nat, seen: nat)
    requires DistinctTxs(ledger) && 0 < p <= |ledger| && seen <= |ledger|
    ensures NewCount(NewestFirst(ledger[..seen]), Some(ledger[p - 1].signature)) == if p <= seen then seen - p else seen
  {
    if p <= seen {
      NewerThan(ledger[..seen], p - 1);
    } else {
      var s := NewestFirst(ledger[..seen]);
      forall i | 0 <= i < |s| ensures s[i] != ledger[p - 1].signature {
        assert s[i] == ledger[seen - 1 - i].signature;
      }
    }
  }

  /** A schedule in which each tick finds at most `limit` new signatures keeps up throughout. */
  lemma {:induction false} RunWithinLimit<T>(H: Hasher<T>, depth: nat, limit: nat, ledger: seq<Tx<T>>, s: Node<T>,
      actions: seq<Action>)
    requires WellFormed(Flatten(ledger)) && DistinctTxs(ledger) && LogSound(ledger, s)
    requires AllWithinLimit(H, depth, limit, ledger, s, actions)
    ensures AllKeepUp(H, depth, limit, ledger, s, actions)
    decreases |actions|
  {
    if |actions| > 0 {
      KeepsUpWithinLimit(limit, ledger, s, actions[0]);
      ActKeepsLog(H, depth, limit, ledger, s, actions[0]);
      RunWithinLimit(H, depth, limit, ledger, Act(H, depth, limit, ledger, s, actions[0]), actions[1..]);
    }
  }

  // ---------- without faults ----------

  /** The tick neither dies nor meets any trouble, and Redis outlasts all it may have to write. */
  ghost predicate NoFault<T>(depth: nat, ledger: seq<Tx<T>>, a: Action) {
    && a.TickAt? && a.troubles == map[]
    && a.cut >= |Flatten(ledger)|
    && Head(a.redis).writes > |Flatten(ledger)| * (depth + 3)
  }

  /** A tick without faults catches up with the chain and leaves a complete tree complete. */
  lemma {:induction false} FaultFreeTick<T>(H: Hasher<T>, depth: nat, limit: nat, ledger: seq<Tx<T>>, s: Node<T>,
      a: Action)
    requires WellFormed(Flatten(ledger)) && FullyStored(H, depth, ledger, s)
    requires NoFault(depth, ledger, a) && a.seen <= |ledger| && KeepsUp(limit, ledger, s, a)
    ensures var s' := Act(H, depth, limit, ledger, s, a);
            FullyStored(H, depth, ledger, s') && s'.upto == Later(s.upto, Offset(ledger, a.seen))
  {
    var lo, hi, p, moved := TickEffect(H, depth, limit, ledger, s, a);
    var pr, lines := Progress(s.backend, a.redis), Flatten(ledger)[lo..hi];
    FlattenSlice(ledger, StartOf(limit, ledger, s, a), a.seen);
    NoTroubleIsOrderly(BatchOf(limit, ledger, s, a));
    assert 0 in s.backend.tree.empties;
    TickIsSound(H, depth, limit, ledger, s, a);
    MulGrows(|lines|, |Flatten(ledger)|, depth + 3);
    WritesUsed(H, depth, pr, lines);
    StretchTree(H, depth, pr, Flatten(ledger), s.upto, lo, hi);
  }

  /** Everything the tick could see on the chain has been indexed. */
  ghost predicate CaughtUp<T>(ledger: seq<Tx<T>>, tick: Action, s: Node<T>) {
    tick.TickAt? && tick.seen <= |ledger| ==> Offset(ledger, tick.seen) <= s.upto
  }

  /** Over any list of ticks without faults the tree stays complete, and no tick's view of the chain is missed. */
  lemma {:induction false} FaultFreeRun<T>(H: Hasher<T>, depth: nat, limit: nat, ledger: seq<Tx<T>>, s: Node<T>,
      actions: seq<Action>)
    requires WellFormed(Flatten(ledger)) && FullyStored(H, depth, ledger, s)
    requires forall i | 0 <= i < |actions| :: NoFault(depth, ledger, actions[i]) && actions[i].seen <= |ledger|
    requires AllKeepUp(H, depth, limit, ledger, s, actions)
    ensures var e := ActAll(H, depth, limit, ledger, s, actions);
            && FullyStored(H, depth, ledger, e) && s.upto <= e.upto
            && forall i | 0 <= i < |actions| :: CaughtUp(ledger, actions[i], e)
    decreases |actions|
  {
    if |actions| > 0 {
      FaultFreeTick(H, depth, limit, ledger, s, actions[0]);
      var s', rest := Act(H, depth, limit, ledger, s, actions[0]), actions[1..];
      FaultFreeRun(H, depth, limit, ledger, s', rest);
      var e := ActAll(H, depth, limit, ledger, s, actions);
      forall i | 0 <= i < |actions| ensures CaughtUp(ledger, actions[i], e) {
        if i > 0 { assert actions[i] == rest[i - 1]; }
      }
    }
  }

  /** After a restart that completes, a tick without faults that sees the whole ledger indexes all of it. */
  lemma CatchUp<T>(H: Hasher<T>, depth: nat, limit: nat, ledger: seq<Tx<T>>, s: Node<T>, restart: Action, tick: Action)
    returns (s': Node<T>)
    requires WellFormed(Flatten(ledger)) && NodeSound(H, depth, ledger, s)
    requires restart.Restart? && Act(H, depth, limit, ledger, s, restart).up
    requires NoFault(depth, ledger, tick) && tick.seen == |ledger|
    requires KeepsUp(limit, ledger, Act(H, depth, limit, ledger, s, restart), tick)
    ensures s' == Act(H, depth, limit, ledger, Act(H, depth, limit, ledger, s, restart), tick)
    ensures FullyStored(H, depth, ledger, s') && s'.upto == |Flatten(ledger)|
    ensures Stored(H, s'.backend.tree, Leaves(Flatten(ledger)), depth)
  {
    var s1 := Act(H, depth, limit, ledger, s, restart);
    RestartIsSound(H, depth, limit, ledger, s, restart);
    FaultFreeTick(H, depth, limit, ledger, s1, tick);
    assert ledger[..|ledger|] == ledger;
    s' := Act(H, depth, limit, ledger, s1, tick);
    assert Flatten(ledger)[..s'.upto] == Flatten(ledger);
  }
}
