/**
 The backend as a state machine: ticks, ticks cut short, Redis outages, lost Redis data and
 restarts, and what each of them does to the database, the tree and the cursor.
 */
module BackendSteps {
  import opened Wrappers
  import opened Merkle
  import opened Events
  import opened TreeStore
  import opened CrashRecovery
  import opened Incremental
  import opened RedisLoss
  import opened Database
  import opened Pagination
  import opened Indexer
  import opened IndexerFaults
  import opened LogImage
  import opened Batches

  // ---------- the backend as a state machine ----------

  /**
   A tick at a time when the chain has `seen` transactions; it dies after `cut` handled log lines
   unless there are fewer. A start of the process. The end of the process. Redis coming back without
   its data, which the backend does not notice: it stays up.
   */
  datatype Action =
    | TickAt(seen: nat, cursorRead: bool, cut: nat, redis: Redis, troubles: Troubles)
    | Restart(redis: Redis)
    | Stopped
    | RedisLost

  /** `upto` log lines have been processed at least once; `up` after a startup that succeeded. */
  datatype Node<T> = Node(backend: Backend<T>, upto: nat, up: bool)

  /** The action is a tick, and there is a process to run it. */
  ghost predicate Ticks<T>(ledger: seq<Tx<T>>, s: Node<T>, a: Action) {
    a.TickAt? && s.up && a.seen <= |ledger|
  }

  /** Where the batch of this tick starts. */
  function StartOf<T>(limit: nat, ledger: seq<Tx<T>>, s: Node<T>, a: Action): (start: nat)
    requires a.TickAt? && a.seen <= |ledger|
    ensures start <= a.seen
  {
    BatchStart(ledger[..a.seen], if a.cursorRead then s.backend.cursor else None, limit)
  }

  function BatchOf<T>(limit: nat, ledger: seq<Tx<T>>, s: Node<T>, a: Action): seq<Tx<T>>
    requires a.TickAt? && a.seen <= |ledger|
  {
    ledger[StartOf(limit, ledger, s, a)..a.seen]
  }

  /** The lines this tick handles before it ends or dies. */
  function TickLines<T>(limit: nat, ledger: seq<Tx<T>>, s: Node<T>, a: Action): seq<Payload<T>>
    requires a.TickAt? && a.seen <= |ledger|
  {
    var lines := HandledLines(BatchOf(limit, ledger, s, a), a.troubles);
    lines[..Min(a.cut, |lines|)]
  }

  ghost function Act<T>(H: Hasher<T>, depth: nat, limit: nat, ledger: seq<Tx<T>>, s: Node<T>, a: Action): Node<T> {
    match a
    case Restart(redis) =>
      var ws := StartupWrites(H, s.backend.tree, OrderedRows(s.backend.db.commitments), depth);
      Node(s.backend.(tree := Run(s.backend.tree, ws, Reach(redis))), s.upto, Lasts(redis, |ws|))
    case Stopped => s.(up := false)
    case RedisLost => s.(backend := s.backend.(tree := EmptyStore(), cursor := None))
    case TickAt(seen, _, cut, redis, troubles) =>
      if !s.up || seen > |ledger| then s
      else
        var batch, lines := BatchOf(limit, ledger, s, a), TickLines(limit, ledger, s, a);
        var p := Progress(s.backend, redis);
        var backend :=
          if cut < |HandledLines(batch, troubles)| then IndexLines(H, depth, p, lines).backend
          else FinishTick(H, depth, p, batch, troubles).backend;
        Node(backend, Later(s.upto, Offset(ledger, StartOf(limit, ledger, s, a)) + |lines|), true)
  }

  ghost function ActAll<T>(H: Hasher<T>, depth: nat, limit: nat, ledger: seq<Tx<T>>, s: Node<T>,
      actions: seq<Action>): Node<T>
    decreases |actions|
  {
    if |actions| == 0 then s
    else ActAll(H, depth, limit, ledger, Act(H, depth, limit, ledger, s, actions[0]), actions[1..])
  }

  /**
   No transaction that was never processed lies beyond the page limit of this tick, what succeeds in
   it is processed completely, and what fails is followed by nothing that succeeds.
   */
  ghost predicate KeepsUp<T>(limit: nat, ledger: seq<Tx<T>>, s: Node<T>, a: Action) {
    Ticks(ledger, s, a) ==>
      && Offset(ledger, StartOf(limit, ledger, s, a)) <= s.upto
      && Orderly(BatchOf(limit, ledger, s, a), a.troubles)
  }

  ghost predicate AllKeepUp<T>(H: Hasher<T>, depth: nat, limit: nat, ledger: seq<Tx<T>>, s: Node<T>,
      actions: seq<Action>)
    decreases |actions|
  {
    |actions| > 0 ==>
      && KeepsUp(limit, ledger, s, actions[0])
      && AllKeepUp(H, depth, limit, ledger, Act(H, depth, limit, ledger, s, actions[0]), actions[1..])
  }

  /** The cursor is the signature of a transaction before which everything was processed. */
  ghost predicate CursorAt<T>(ledger: seq<Tx<T>>, s: Node<T>, p: nat) {
    && 0 < p <= |ledger|
    && s.backend.cursor == Some(ledger[p - 1].signature)
    && Offset(ledger, p) <= s.upto
  }

  ghost predicate CursorSound<T>(ledger: seq<Tx<T>>, s: Node<T>) {
    s.backend.cursor.None? || exists p: nat :: CursorAt(ledger, s, p)
  }

  /** The database is the image of the first `upto` lines, and the cursor skips none. */
  ghost predicate LogSound<T>(ledger: seq<Tx<T>>, s: Node<T>) {
    && s.upto <= |Flatten(ledger)|
    && Mirrors(s.backend.db, Flatten(ledger)[..s.upto])
    && CursorSound(ledger, s)
  }

  /** The commitments in the database of a sound node. */
  ghost function RowsHeld<T>(ledger: seq<Tx<T>>, s: Node<T>): seq<T>
    requires s.upto <= |Flatten(ledger)|
  {
    Leaves(Flatten(ledger)[..s.upto])
  }

  ghost predicate TreeSound<T>(H: Hasher<T>, depth: nat, ledger: seq<Tx<T>>, s: Node<T>)
    requires s.upto <= |Flatten(ledger)|
  {
    && Recoverable(H, s.backend.tree, RowsHeld(ledger, s), depth)
    && (s.up ==> Usable(H, s.backend.tree, RowsHeld(ledger, s), depth))
  }

  ghost predicate NodeSound<T>(H: Hasher<T>, depth: nat, ledger: seq<Tx<T>>, s: Node<T>) {
    LogSound(ledger, s) && TreeSound(H, depth, ledger, s)
  }

  /** The tree of a running node holds everything in its database. */
  ghost predicate FullyStored<T>(H: Hasher<T>, depth: nat, ledger: seq<Tx<T>>, s: Node<T>) {
    s.up && NodeSound(H, depth, ledger, s) && Stored(H, s.backend.tree, RowsHeld(ledger, s), depth)
  }

  // ---------- one tick ----------

  /** A tick that does not die is what `Indexer.Tick` is proved to do. */
  lemma {:induction false} TickIsAction<T>(H: Hasher<T>, depth: nat, limit: nat, ledger: seq<Tx<T>>, s: Node<T>,
      a: Action)
    requires Ticks(ledger, s, a) && a.cut >= |HandledLines(BatchOf(limit, ledger, s, a), a.troubles)|
    ensures var known := ledger[..a.seen];
            var start := BatchStart(known, if a.cursorRead then s.backend.cursor else None, limit);
            Act(H, depth, limit, ledger, s, a).backend
            == FinishTick(H, depth, Progress(s.backend, a.redis), known[start..], a.troubles).backend
  {
    assert ledger[..a.seen][StartOf(limit, ledger, s, a)..] == BatchOf(limit, ledger, s, a);
  }

  /** The node after lines lo..hi, its cursor at transaction `p` if `moved`. */
  function Stretched<T>(H: Hasher<T>, depth: nat, ledger: seq<Tx<T>>, s: Node<T>, lo: nat, hi: nat, redis: Redis,
                        p: nat, moved: bool): Node<T>
    requires lo <= hi <= |Flatten(ledger)|
    requires moved ==> 0 < p <= |ledger|
  {
    var q := IndexLines(H, depth, Progress(s.backend, redis), Flatten(ledger)[lo..hi]);
    WithCursor(ledger, Node(q.backend, Later(s.upto, hi), true), p, moved)
  }

  /** The node `s`, its cursor moved to transaction `p` if `moved`. */
  function WithCursor<T>(ledger: seq<Tx<T>>, s: Node<T>, p: nat, moved: bool): Node<T>
    requires moved ==> 0 < p <= |ledger|
  {
    if moved then s.(backend := s.backend.(cursor := Some(ledger[p - 1].signature))) else s
  }

  /** The lines a tick handles are a stretch lo..hi of the log. */
  lemma TickStretch<T>(limit: nat, ledger: seq<Tx<T>>, s: Node<T>, a: Action) returns (lo: nat, hi: nat)
    requires Ticks(ledger, s, a) && Orderly(BatchOf(limit, ledger, s, a), a.troubles)
    ensures lo == Offset(ledger, StartOf(limit, ledger, s, a)) <= hi <= Offset(ledger, a.seen) <= |Flatten(ledger)|
    ensures TickLines(limit, ledger, s, a) == Flatten(ledger)[lo..hi]
  {
    FlattenSlice(ledger, StartOf(limit, ledger, s, a), a.seen);
    OrderlyBatch(BatchOf(limit, ledger, s, a), a.troubles);
    lo := Offset(ledger, StartOf(limit, ledger, s, a));
    hi := lo + |TickLines(limit, ledger, s, a)|;
  }

  /** What a tick does: lines lo..hi of the log, then possibly the cursor, not beyond them. */
  lemma TickEffect<T>(H: Hasher<T>, depth: nat, limit: nat, ledger: seq<Tx<T>>, s: Node<T>, a: Action)
    returns (lo: nat, hi: nat, p: nat, moved: bool)
    requires Ticks(ledger, s, a) && Orderly(BatchOf(limit, ledger, s, a), a.troubles)
    ensures lo == Offset(ledger, StartOf(limit, ledger, s, a)) <= hi <= Offset(ledger, a.seen) <= |Flatten(ledger)|
    ensures TickLines(limit, ledger, s, a) == Flatten(ledger)[lo..hi]
    ensures moved ==> 0 < p <= |ledger| && Offset(ledger, p) <= hi
    ensures Act(H, depth, limit, ledger, s, a) == Stretched(H, depth, ledger, s, lo, hi, a.redis, p, moved)
  {
    lo, hi := TickStretch(limit, ledger, s, a);
    p, moved := 0, false;
    if a.cut >= |HandledLines(BatchOf(limit, ledger, s, a), a.troubles)| {
      var start, pr := StartOf(limit, ledger, s, a), Progress(s.backend, a.redis);
      p, moved := TickCursor(H, depth, ledger, start, a.seen, pr, a.troubles);
      assert TickLines(limit, ledger, s, a) == HandledLines(BatchOf(limit, ledger, s, a), a.troubles);
    }
  }

  /** A batch that runs to its end: its lines, then the cursor at its last success, if Redis takes it. */
  lemma TickCursor<T>(H: Hasher<T>, depth: nat, ledger: seq<Tx<T>>, start: nat, seen: nat, pr: Progress<T>,
      troubles: Troubles) returns (p: nat, moved: bool)
    requires start <= seen <= |ledger| && Orderly(ledger[start..seen], troubles)
    ensures var lines := HandledLines(ledger[start..seen], troubles);
            var q := IndexLines(H, depth, pr, lines);
            && (moved ==> 0 < p <= |ledger| && Offset(ledger, p) <= Offset(ledger, start) + |lines|)
            && FinishTick(H, depth, pr, ledger[start..seen], troubles).backend
               == if moved then q.backend.(cursor := Some(ledger[p - 1].signature)) else q.backend
  {
    var batch := ledger[start..seen];
    var n := Successes(batch, troubles);
    BatchEffect(H, depth, pr, batch, troubles);
    LastSuccessHandled(ledger, start, seen, troubles);
    p, moved := start + n, n > 0 && Reach(IndexLines(H, depth, pr, HandledLines(batch, troubles)).redis) > 0;
  }

  // ---------- the database over every tick ----------

  lemma CursorStays<T>(ledger: seq<Tx<T>>, s: Node<T>, s': Node<T>)
    requires CursorSound(ledger, s)
    requires s'.backend.cursor == s.backend.cursor && s.upto <= s'.upto
    ensures CursorSound(ledger, s')
  {
    if s.backend.cursor.Some? {
      var p: nat :| CursorAt(ledger, s, p);
      assert CursorAt(ledger, s', p);
    }
  }

  lemma {:induction false} StretchedKeepsLog<T>(H: Hasher<T>, depth: nat, ledger: seq<Tx<T>>, s: Node<T>, lo: nat,
      hi: nat, redis: Redis, p: nat, moved: bool)
    requires WellFormed(Flatten(ledger)) && LogSound(ledger, s)
    requires lo <= s.upto && lo <= hi <= |Flatten(ledger)|
    requires moved ==> 0 < p <= |ledger| && Offset(ledger, p) <= hi
    ensures LogSound(ledger, Stretched(H, depth, ledger, s, lo, hi, redis, p, moved))
  {
    var s' := Stretched(H, depth, ledger, s, lo, hi, redis, p, moved);
    StretchMirrored(H, depth, Progress(s.backend, redis), Flatten(ledger), s.upto, lo, hi);
    if moved {
      assert CursorAt(ledger, s', p);
    } else {
      CursorStays(ledger, s, s');
    }
  }

  /** A tick keeps the database the image of the log, whatever state the tree is in. */
  lemma {:induction false} TickKeepsLog<T>(H: Hasher<T>, depth: nat, limit: nat, ledger: seq<Tx<T>>, s: Node<T>,
      a: Action)
    requires WellFormed(Flatten(ledger)) && LogSound(ledger, s)
    requires Ticks(ledger, s, a) && KeepsUp(limit, ledger, s, a)
    ensures LogSound(ledger, Act(H, depth, limit, ledger, s, a))
  {
    var lo, hi, p, moved := TickEffect(H, depth, limit, ledger, s, a);
    StretchedKeepsLog(H, depth, ledger, s, lo, hi, a.redis, p, moved);
  }

  // ---------- the tree over one tick ----------

  /**
   Leaf 0 of the log is indexed into a store that lost its keys, with no row in the database yet,
   and Redis takes at least the writes up to the root.
   */
  ghost predicate Spoils<T>(depth: nat, limit: nat, ledger: seq<Tx<T>>, s: Node<T>, a: Action) {
    && Ticks(ledger, s, a)
    && s.backend.tree == EmptyStore()
    && s.backend.db.commitments == map[]
    && HasDeposit(TickLines(limit, ledger, s, a))
    && Reach(a.redis) >= depth + 2
  }

  lemma {:induction false} SpoilsIsHazard<T>(depth: nat, limit: nat, ledger: seq<Tx<T>>, s: Node<T>, a: Action,
      lo: nat, hi: nat)
    requires WellFormed(Flatten(ledger)) && LogSound(ledger, s) && Ticks(ledger, s, a)
    requires lo <= s.upto && lo <= hi <= |Flatten(ledger)|
    requires TickLines(limit, ledger, s, a) == Flatten(ledger)[lo..hi]
    ensures Spoils(depth, limit, ledger, s, a)
        <==> && Hazard(depth, Progress(s.backend, a.redis), RowsHeld(ledger, s))
             && |Leaves(Flatten(ledger)[..hi])| > 0
  {
    var lines, c := Flatten(ledger), RowsHeld(ledger, s);
    LeavesGrow(lines, lo, s.upto);
    if |c| > 0 {
      assert 0 in TableOf(c);
    } else {
      assert TableOf(c) == map[];
      FirstDeposit(lines, lo, hi);
    }
  }

  /** A tick leaves the node sound exactly when it does not spoil the store, and the tree follows the log. */
  lemma {:induction false} TickIsSound<T>(H: Hasher<T>, depth: nat, limit: nat, ledger: seq<Tx<T>>, s: Node<T>,
      a: Action)
    requires WellFormed(Flatten(ledger)) && NodeSound(H, depth, ledger, s)
    requires Ticks(ledger, s, a) && KeepsUp(limit, ledger, s, a)
    ensures var s' := Act(H, depth, limit, ledger, s, a);
            && LogSound(ledger, s')
            && (NodeSound(H, depth, ledger, s') <==> !Spoils(depth, limit, ledger, s, a))
            && (Spoils(depth, limit, ledger, s, a) ==> Spoilt(s'.backend.tree))
            && (Between(H, s.backend.tree, RowsHeld(ledger, s), depth)
                ==> Between(H, s'.backend.tree, RowsHeld(ledger, s'), depth))
            && (Awaits(s.backend.tree, RowsHeld(ledger, s)) && !Spoils(depth, limit, ledger, s, a)
                ==> Awaits(s'.backend.tree, RowsHeld(ledger, s')))
  {
    var lo, hi, p, moved := TickEffect(H, depth, limit, ledger, s, a);
    var pr := Progress(s.backend, a.redis);
    var s' := Act(H, depth, limit, ledger, s, a);
    TickKeepsLog(H, depth, limit, ledger, s, a);
    SpoilsIsHazard(depth, limit, ledger, s, a, lo, hi);
    if Spoils(depth, limit, ledger, s, a) {
      StretchSpoils(H, depth, pr, Flatten(ledger), s.upto, lo, hi);
      SpoiltIsNotRecoverable(H, s'.backend.tree, RowsHeld(ledger, s'), depth);
      assert 0 !in s.backend.tree.empties;
    } else {
      StretchTree(H, depth, pr, Flatten(ledger), s.upto, lo, hi);
    }
  }

  // ---------- the other actions ----------

  lemma {:induction false} RowsOfMirror<T>(db: Tables<T>, lines: seq<Payload<T>>)
    requires Mirrors(db, lines) && |Leaves(lines)| <= 0x4000_0000
    ensures RowsOf(OrderedRows(db.commitments), Leaves(lines))
  {
    var c := Leaves(lines);
    OrderedRowsOfTable(c, 0);
    forall i | 0 <= i < |c| ensures OrderedRows(db.commitments)[i] == Row(i, c[i]) {
      OrderedRowsOfTable(c, i);
    }
  }

  /** A restart is sound, and one that completes rebuilds the tree of everything in the database. */
  lemma {:induction false} RestartIsSound<T>(H: Hasher<T>, depth: nat, limit: nat, ledger: seq<Tx<T>>, s: Node<T>,
      a: Action)
    requires WellFormed(Flatten(ledger)) && NodeSound(H, depth, ledger, s)
    requires a.Restart?
    ensures var s' := Act(H, depth, limit, ledger, s, a);
            && NodeSound(H, depth, ledger, s')
            && (s'.up ==> FullyStored(H, depth, ledger, s'))
  {
    var lines, c := Flatten(ledger), RowsHeld(ledger, s);
    var rows := OrderedRows(s.backend.db.commitments);
    LeavesGrow(lines, s.upto, |lines|);
    assert lines[..|lines|] == lines;
    RowsOfMirror(s.backend.db, lines[..s.upto]);
    StartupRecovers(H, s.backend.tree, c, rows, depth, Reach(a.redis));
    var s' := Act(H, depth, limit, ledger, s, a);
    if s'.up {
      assert c[..|c|] == c;
      StoredIsBetween(H, s'.backend.tree, c, |c|, depth);
    }
    CursorStays(ledger, s, s');
  }

  /** Every action keeps the database the image of the log, whatever state the tree is in. */
  lemma {:induction false} ActKeepsLog<T>(H: Hasher<T>, depth: nat, limit: nat, ledger: seq<Tx<T>>, s: Node<T>,
      a: Action)
    requires WellFormed(Flatten(ledger)) && LogSound(ledger, s) && KeepsUp(limit, ledger, s, a)
    ensures LogSound(ledger, Act(H, depth, limit, ledger, s, a))
  {
    if Ticks(ledger, s, a) {
      TickKeepsLog(H, depth, limit, ledger, s, a);
    } else if !a.RedisLost? {
      CursorStays(ledger, s, Act(H, depth, limit, ledger, s, a));
    }
  }

  /** An action leaves a sound node sound exactly when it does not spoil the store. */
  lemma {:induction false} ActIsSound<T>(H: Hasher<T>, depth: nat, limit: nat, ledger: seq<Tx<T>>, s: Node<T>,
      a: Action)
    requires WellFormed(Flatten(ledger)) && NodeSound(H, depth, ledger, s) && KeepsUp(limit, ledger, s, a)
    ensures var s' := Act(H, depth, limit, ledger, s, a);
            if Spoils(depth, limit, ledger, s, a) then Spoilt(s'.backend.tree) else NodeSound(H, depth, ledger, s')
  {
    ActKeepsLog(H, depth, limit, ledger, s, a);
    if Ticks(ledger, s, a) {
      TickIsSound(H, depth, limit, ledger, s, a);
    } else if a.Restart? {
      RestartIsSound(H, depth, limit, ledger, s, a);
    }
  }

  /** A spoilt store stays spoilt over ticks and restarts; only losing Redis once more clears it. */
  lemma {:induction false} SpoiltForGood<T>(H: Hasher<T>, depth: nat, limit: nat, ledger: seq<Tx<T>>, s: Node<T>,
      a: Action)
    requires Spoilt(s.backend.tree) && !a.RedisLost?
    ensures Spoilt(Act(H, depth, limit, ledger, s, a).backend.tree)
  {
    if Ticks(ledger, s, a) {
      var p, batch := Progress(s.backend, a.redis), BatchOf(limit, ledger, s, a);
      LinesKeepSpoilt(H, depth, p, TickLines(limit, ledger, s, a));
      LinesKeepSpoilt(H, depth, p, HandledLines(batch, a.troubles));
      BatchIsLines(H, depth, p, None, batch, a.troubles);
    } else if a.Restart? {
      StartupKeepsSpoilt(H, s.backend.tree, OrderedRows(s.backend.db.commitments), depth, Reach(a.redis));
    }
  }
}
