/**
 The whole system: the ledger tells the indexer a run of the program, the indexer's tree gives
 the client a proof, and the program accepts or refuses the withdrawal made from it.
 */
module WholeSystem {
  import opened Wrappers
  import opened Api
  import opened Bytes
  import opened ChainLog
  import opened Client
  import opened HalfWritten
  import opened Merkle
  import opened Circuit
  import opened Events
  import opened FieldReduction
  import opened Pool
  import opened PoolRuns
  import opened Solvency
  import opened TreeStore
  import opened CrashRecovery
  import opened Incremental
  import opened ConcurrentProof
  import opened Database
  import opened Pagination
  import opened Indexer
  import opened LogImage
  import opened Batches
  import opened BackendSteps
  import opened IndexerRuns

  /** The backend before its first start, with nothing in Postgres or Redis. */
  function FreshNode<T>(): Node<T> {
    Node(Backend(Tables(map[], [], map[]), EmptyStore(), None), 0, false)
  }

  lemma FreshNodeIsSound<T>(H: Hasher<T>, depth: nat, ledger: seq<Tx<T>>)
    ensures NodeSound(H, depth, ledger, FreshNode())
  {
    assert Flatten(ledger)[..0] == [];
    assert TableOf<T>([]) == map[];
  }

  /** What `/api/commitments` serves. */
  ghost function Served<T>(s: Node<T>): (c: seq<T>)
    ensures |c| == |OrderedRows(s.backend.db.commitments)|
  {
    var rows := OrderedRows(s.backend.db.commitments);
    seq(|rows|, i requires 0 <= i < |rows| => rows[i].commitment)
  }

  /** The backend is up, and its tree has a root and counts every row of the database. */
  ghost predicate InStep<T>(s: Node<T>) {
    s.up && s.backend.tree.root.Some? && GetSize(s.backend.tree) == |Served(s)|
  }

  lemma {:induction false} ServedIsLog<T>(ledger: seq<Tx<T>>, s: Node<T>)
    requires WellFormed(Flatten(ledger)) && LogSound(ledger, s)
    ensures Served(s) == RowsHeld(ledger, s)
  {
    var lines := Flatten(ledger);
    assert lines[..|lines|] == lines;
    LeavesGrow(lines, s.upto, |lines|);
    RowsOfMirror(s.backend.db, lines[..s.upto]);
  }

  /** What is served are the first commitments on chain, with one root row for each, whatever the tree holds. */
  lemma {:induction false} ServedIsPrefix(w: World, ledger: seq<Tx<Field>>, s: Node<Field>)
    requires Tells(Flatten(ledger), w) && LogSound(ledger, s)
    ensures |Served(s)| <= |w.deposits| && Served(s) == Commitments(w.deposits)[..|Served(s)|]
    ensures |s.backend.db.roots| == |Served(s)|
    ensures forall i | 0 <= i < |Served(s)| :: s.backend.db.roots[i] == RootRow(w.deposits[i].newRoot, i)
  {
    var lines := Flatten(ledger);
    assert lines[..|lines|] == lines;
    LeavesGrow(lines, s.upto, |lines|);
    ServedIsLog(ledger, s);
    RootsArePrefix(lines, s.upto, |lines|);
  }

  /** A sound backend in step stores exactly the tree of what it serves. */
  lemma {:induction false} InStepTree(cfg: Config, w: World, ledger: seq<Tx<Field>>, s: Node<Field>)
    requires Tells(Flatten(ledger), w)
    requires NodeSound(Poseidon(), cfg.depth, ledger, s) && InStep(s)
    ensures Stored(Poseidon(), s.backend.tree, Served(s), cfg.depth)
  {
    ServedIsLog(ledger, s);
    BetweenAtEnd(Poseidon(), s.backend.tree, Served(s), cfg.depth);
  }

  /** The deposit a client builds is honest exactly when the backend serves every deposit on chain. */
  lemma {:induction false} ClientDepositHonestExactly(cfg: Config, w: World, initial: map<Pubkey, nat>,
      ledger: seq<Tx<Field>>, s: Node<Field>, note: Note, depositor: Pubkey, now: i64)
    requires Solvent(cfg, w, initial) && |w.deposits| < Pow2(cfg.depth)
    requires Tells(Flatten(ledger), w) && LogSound(ledger, s)
    ensures HonestIx(cfg, w, ClientDeposit(cfg, Served(s), note, depositor, now)) <==> |Served(s)| == |w.deposits|
  {
    var m := |Served(s)|;
    ServedIsPrefix(w, ledger, s);
    var c, x := Commitments(w.deposits), CommitmentOf(note);
    assert IsNote(x, note.amount);
    assert c[..|c|] == c;
    if RebuiltRoot(cfg, c[..m] + [x]) == RebuiltRoot(cfg, c + [x]) {
      PoseidonIsIdeal();
      NotesNotEmpty(cfg, w, m);
      NotesNotEmpty(cfg, w, |c|);
      RootDeterminesLeaves(Poseidon(), c[..m] + [x], c + [x], cfg.depth);
      assert |c[..m] + [x]| == |c + [x]|;
    }
  }

  lemma {:induction false} StoredRootIsLatestRow(cfg: Config, w: World, initial: map<Pubkey, nat>,
      ledger: seq<Tx<Field>>, s: Node<Field>)
    requires Solvent(cfg, w, initial) && Tells(Flatten(ledger), w)
    requires FullyStored(Poseidon(), cfg.depth, ledger, s)
    ensures GetSize(s.backend.tree) == |Served(s)| == |s.backend.db.roots|
    ensures |Served(s)| > 0 ==> s.backend.tree.root == LatestRoot(s.backend.db)
  {
    ServedIsLog(ledger, s);
    ServedIsPrefix(w, ledger, s);
    if |Served(s)| > 0 {
      assert HonestDeposit(cfg, w, |Served(s)| - 1);
    }
  }

  /**
   Honest program, backend without faults: after any list of ticks the tree counts every row, there
   are as many root rows, and the root endpoint answers the latest of them, with Redis or without.
   */
  lemma {:induction false} TreeRootIsLatestRow(cfg: Config, w: World, initial: map<Pubkey, nat>, limit: nat,
      ledger: seq<Tx<Field>>, s: Node<Field>, ticks: seq<Action>)
    requires Solvent(cfg, w, initial) && Tells(Flatten(ledger), w)
    requires FullyStored(Poseidon(), cfg.depth, ledger, s)
    requires forall i | 0 <= i < |ticks| :: NoFault(cfg.depth, ledger, ticks[i]) && ticks[i].seen <= |ledger|
    requires AllKeepUp(Poseidon(), cfg.depth, limit, ledger, s, ticks)
    ensures var e := ActAll(Poseidon(), cfg.depth, limit, ledger, s, ticks);
            && GetSize(e.backend.tree) == |Served(e)| == |e.backend.db.roots|
            && (|Served(e)| > 0 ==> forall redisAnswers: bool ::
                  RootAnswer(e.backend.tree, e.backend.db, redisAnswers) == LatestRoot(e.backend.db))
  {
    FaultFreeRun(Poseidon(), cfg.depth, limit, ledger, s, ticks);
    StoredRootIsLatestRow(cfg, w, initial, ledger, ActAll(Poseidon(), cfg.depth, limit, ledger, s, ticks));
  }

  /**
   The deposit of a client that is served every commitment: accepted exactly if the tree has room, the
   amount is not too small and the depositor, who is not the vault, has it; and it is the depositor who pays.
   */
  lemma {:induction false} ClientDepositExact(cfg: Config, w: World, initial: map<Pubkey, nat>,
      ledger: seq<Tx<Field>>, s: Node<Field>, note: Note, depositor: Pubkey, now: i64)
    requires Solvent(cfg, w, initial) && Tells(Flatten(ledger), w) && LogSound(ledger, s)
    requires |Served(s)| == |w.deposits|
    ensures var r := DepositIx(cfg, w.pool, ClientDeposit(cfg, Served(s), note, depositor, now));
            && (r.Ok? <==> && depositor != cfg.vault && |w.deposits| < Pow2(cfg.depth)
                           && note.amount >= MIN_DEPOSIT_AMOUNT
                           && Balance(w.pool.lamports, depositor) >= note.amount)
            && (r.Ok? ==>
                  && Moved(w.pool.lamports, r.value.state.lamports, depositor, cfg.vault, note.amount)
                  && r.value.event == DepositEvent(CommitmentOf(note), |w.deposits|, now,
                                                   RebuiltRoot(cfg, Commitments(w.deposits) + [CommitmentOf(note)])))
  {
    ServedIsPrefix(w, ledger, s);
    var c, x := Commitments(w.deposits), CommitmentOf(note);
    assert c[..|c|] == c;
    assert IsNote(x, note.amount);
    DepositExact(cfg, w, initial, ClientDeposit(cfg, Served(s), note, depositor, now));
    TransferExact(w.pool.lamports, depositor, cfg.vault, note.amount);
  }

  // ---------- the root endpoint ----------

  /** A complete tree: the root of everything served, also when that is nothing yet. */
  lemma {:induction false} RootOfCompleteTree<T>(H: Hasher<T>, depth: nat, ledger: seq<Tx<T>>, s: Node<T>)
    requires WellFormed(Flatten(ledger)) && FullyStored(H, depth, ledger, s)
    ensures RootAnswer(s.backend.tree, s.backend.db, true) == Some(Root(H, Served(s), depth))
  {
    ServedIsLog(ledger, s);
  }

  /** A half-written tree: the root of the leaves it counts. */
  lemma {:induction false} RootOfHalf<T>(H: Hasher<T>, t: Tree<T>, db: Tables<T>, served: seq<T>, depth: nat,
      base: Tree<T>, m: nat, k: nat)
    requires Half(H, t, served, depth, base, m, k)
    ensures var n := if m < |served| then RootCount(depth, m, k) else m;
            RootAnswer(t, db, true) == Some(Root(H, served[..n], depth))
  {
    if m < |served| {
      UpdateAt(H, base, served, m, depth, k);
    }
  }

  /** No root, or no Redis: the root of everything served, from the database, or nothing if that is nothing. */
  lemma {:induction false} RootWithoutTree(cfg: Config, w: World, initial: map<Pubkey, nat>, ledger: seq<Tx<Field>>,
      s: Node<Field>, redisAnswers: bool)
    requires Solvent(cfg, w, initial) && Tells(Flatten(ledger), w) && LogSound(ledger, s)
    requires redisAnswers ==> s.backend.tree.root.None?
    ensures RootAnswer(s.backend.tree, s.backend.db, redisAnswers)
         == if |Served(s)| == 0 then None else Some(RebuiltRoot(cfg, Served(s)))
  {
    ServedIsPrefix(w, ledger, s);
    if |Served(s)| > 0 {
      assert HonestDeposit(cfg, w, |Served(s)| - 1);
    }
  }

  // ---------- end to end ----------

  /** An honest run, a ledger that tells it, and a backend that started with nothing and keeps up. */
  ghost predicate Scenario(cfg: Config, initial: map<Pubkey, nat>, ixs: seq<Instruction>, limit: nat,
      ledger: seq<Tx<Field>>, actions: seq<Action>)
  {
    && HonestRun(cfg, Genesis(cfg, initial), ixs)
    && Tells(Flatten(ledger), Exec(cfg, Genesis(cfg, initial), ixs))
    && AllKeepUp(Poseidon(), cfg.depth, limit, ledger, FreshNode(), actions)
  }

  /** The node at the end of it. */
  ghost function NodeAfter(cfg: Config, limit: nat, ledger: seq<Tx<Field>>, actions: seq<Action>): Node<Field> {
    ActAll(Poseidon(), cfg.depth, limit, ledger, FreshNode(), actions)
  }

  /** The pool is solvent, and the node serves the first commitments on chain. */
  lemma {:induction false} ScenarioHolds(cfg: Config, initial: map<Pubkey, nat>, ixs: seq<Instruction>, limit: nat,
      ledger: seq<Tx<Field>>, actions: seq<Action>)
    requires Scenario(cfg, initial, ixs, limit, ledger, actions)
    ensures var w, s := Exec(cfg, Genesis(cfg, initial), ixs), NodeAfter(cfg, limit, ledger, actions);
            && Solvent(cfg, w, initial) && |w.deposits| <= Pow2(cfg.depth)
            && LogSound(ledger, s)
            && (!EndsSpoilt(Poseidon(), cfg.depth, limit, ledger, FreshNode(), false, actions)
                ==> NodeSound(Poseidon(), cfg.depth, ledger, s))
            && |Served(s)| <= |w.deposits| && Served(s) == Commitments(w.deposits)[..|Served(s)|]
  {
    var w, s := Exec(cfg, Genesis(cfg, initial), ixs), NodeAfter(cfg, limit, ledger, actions);
    GenesisIsSound(cfg, initial);
    Solvency.Solvency(cfg, initial, ixs);
    FreshNodeIsSound(Poseidon(), cfg.depth, ledger);
    BackendRunIsSound(Poseidon(), cfg.depth, limit, ledger, FreshNode(), actions);
    ServedIsPrefix(w, ledger, s);
  }

  /**
   End to end, for a tree that is complete for the first m of the commitments served: the client's
   withdrawal is accepted if and only if the commitment is one of those m, the note is unspent, at
   most nine deposits on chain are missing from the tree, and the recipient's key is below the
   frontend's modulus.
   */
  lemma {:induction false} EndToEnd(cfg: Config, initial: map<Pubkey, nat>, ixs: seq<Instruction>, limit: nat,
      ledger: seq<Tx<Field>>, actions: seq<Action>, m: nat, note: Note, to: Pubkey, now: i64)
    requires Scenario(cfg, initial, ixs, limit, ledger, actions)
    requires var s := NodeAfter(cfg, limit, ledger, actions);
             m <= |Served(s)| && Stored(Poseidon(), s.backend.tree, Served(s)[..m], cfg.depth)
    ensures var w, s := Exec(cfg, Genesis(cfg, initial), ixs), NodeAfter(cfg, limit, ledger, actions);
            && m <= |w.deposits|
            && (Paid(cfg, w.pool, ClientWithdrawal(cfg, s.backend.tree, Served(s), note, to, now))
                <==> Payable(w, note, to, m) && CommitmentOf(note) in Served(s)[..m])
  {
    var w, s := Exec(cfg, Genesis(cfg, initial), ixs), NodeAfter(cfg, limit, ledger, actions);
    ScenarioHolds(cfg, initial, ixs, limit, ledger, actions);
    assert Served(s)[..m] == Commitments(w.deposits)[..m];
    WithdrawalFromPrefix(cfg, w, initial, s.backend.tree, Served(s), m, note, to, now);
  }

  /** In particular for a backend in step that no tick spoiled: then m is all that is served. */
  lemma {:induction false} EndToEndInStep(cfg: Config, initial: map<Pubkey, nat>, ixs: seq<Instruction>, limit: nat,
      ledger: seq<Tx<Field>>, actions: seq<Action>, note: Note, to: Pubkey, now: i64)
    requires Scenario(cfg, initial, ixs, limit, ledger, actions)
    requires !EndsSpoilt(Poseidon(), cfg.depth, limit, ledger, FreshNode(), false, actions)
    requires InStep(NodeAfter(cfg, limit, ledger, actions))
    ensures var w, s := Exec(cfg, Genesis(cfg, initial), ixs), NodeAfter(cfg, limit, ledger, actions);
            && |Served(s)| <= |w.deposits|
            && (Paid(cfg, w.pool, ClientWithdrawal(cfg, s.backend.tree, Served(s), note, to, now))
                <==> Payable(w, note, to, |Served(s)|) && CommitmentOf(note) in Served(s))
  {
    var w, s := Exec(cfg, Genesis(cfg, initial), ixs), NodeAfter(cfg, limit, ledger, actions);
    ScenarioHolds(cfg, initial, ixs, limit, ledger, actions);
    InStepTree(cfg, w, ledger, s);
    assert Served(s)[..|Served(s)|] == Served(s);
    EndToEnd(cfg, initial, ixs, limit, ledger, actions, |Served(s)|, note, to, now);
  }

  /** The tree of a running backend that did not end spoilt: what it is, unless it has no root. */
  lemma {:induction false} RunningTree(cfg: Config, initial: map<Pubkey, nat>, ixs: seq<Instruction>, limit: nat,
      ledger: seq<Tx<Field>>, actions: seq<Action>)
    returns (base: Tree<Field>, m: nat, k: nat)
    requires Scenario(cfg, initial, ixs, limit, ledger, actions)
    requires !EndsSpoilt(Poseidon(), cfg.depth, limit, ledger, FreshNode(), false, actions)
    requires NodeAfter(cfg, limit, ledger, actions).up
    ensures var s := NodeAfter(cfg, limit, ledger, actions);
            s.backend.tree.root.Some? ==> Half(Poseidon(), s.backend.tree, Served(s), cfg.depth, base, m, k)
  {
    var w, s := Exec(cfg, Genesis(cfg, initial), ixs), NodeAfter(cfg, limit, ledger, actions);
    ScenarioHolds(cfg, initial, ixs, limit, ledger, actions);
    FreshNodeIsSound(Poseidon(), cfg.depth, ledger);
    RunExplained(Poseidon(), cfg.depth, limit, ledger, FreshNode(), false, actions);
    ServedIsLog(ledger, s);
    base, m, k := EmptyStore(), 0, 0;
    if s.backend.tree.root.Some? {
      base, m, k :| Half(Poseidon(), s.backend.tree, Served(s), cfg.depth, base, m, k);
    }
  }

  /** What `/api/root` answers in every state of a running backend, Redis answering. */
  lemma {:induction false} RootWhileRunning(cfg: Config, initial: map<Pubkey, nat>, ixs: seq<Instruction>, limit: nat,
      ledger: seq<Tx<Field>>, actions: seq<Action>)
    returns (base: Tree<Field>, m: nat, k: nat)
    requires Scenario(cfg, initial, ixs, limit, ledger, actions)
    requires !EndsSpoilt(Poseidon(), cfg.depth, limit, ledger, FreshNode(), false, actions)
    requires NodeAfter(cfg, limit, ledger, actions).up
    ensures var s := NodeAfter(cfg, limit, ledger, actions);
            var n := if m < |Served(s)| then RootCount(cfg.depth, m, k) else m;
            var answer := RootAnswer(s.backend.tree, s.backend.db, true);
            if s.backend.tree.root.Some? then
              && Half(Poseidon(), s.backend.tree, Served(s), cfg.depth, base, m, k)
              && answer == Some(RebuiltRoot(cfg, Served(s)[..n]))
            else answer == if |Served(s)| == 0 then None else Some(RebuiltRoot(cfg, Served(s)))
  {
    var w, s := Exec(cfg, Genesis(cfg, initial), ixs), NodeAfter(cfg, limit, ledger, actions);
    ScenarioHolds(cfg, initial, ixs, limit, ledger, actions);
    base, m, k := RunningTree(cfg, initial, ixs, limit, ledger, actions);
    if s.backend.tree.root.Some? {
      RootOfHalf(Poseidon(), s.backend.tree, s.backend.db, Served(s), cfg.depth, base, m, k);
    } else {
      RootWithoutTree(cfg, w, initial, ledger, s, true);
    }
  }

  /** A client of a running backend can build a withdrawal exactly if its commitment is served and there is a root. */
  lemma {:induction false} BuildsWhileRunning(cfg: Config, initial: map<Pubkey, nat>, ixs: seq<Instruction>,
      limit: nat, ledger: seq<Tx<Field>>, actions: seq<Action>, note: Note, to: Pubkey, now: i64)
    requires Scenario(cfg, initial, ixs, limit, ledger, actions) && cfg.depth > 0
    requires !EndsSpoilt(Poseidon(), cfg.depth, limit, ledger, FreshNode(), false, actions)
    requires NodeAfter(cfg, limit, ledger, actions).up
    ensures var s := NodeAfter(cfg, limit, ledger, actions);
            ClientWithdrawal(cfg, s.backend.tree, Served(s), note, to, now).Some?
            <==> CommitmentOf(note) in Served(s) && s.backend.tree.root.Some?
  {
    var s := NodeAfter(cfg, limit, ledger, actions);
    BuildsExactly(cfg, s.backend.tree, Served(s), note, to, now);
    var base, m, k := RootWhileRunning(cfg, initial, ixs, limit, ledger, actions);
    if s.backend.tree.root.Some? {
      var n := if m < |Served(s)| then RootCount(cfg.depth, m, k) else m;
      RootIsHash(cfg, Served(s)[..n]);
    }
  }

  /** A tree that counts all that is served is one in which nothing is half written. */
  lemma {:induction false} WithdrawalFromHalf(cfg: Config, w: World, initial: map<Pubkey, nat>, tree: Tree<Field>,
      served: seq<Field>, base: Tree<Field>, m: nat, k: nat, note: Note, to: Pubkey, now: i64)
    returns (i: nat, level: nat)
    requires Solvent(cfg, w, initial)
    requires |served| <= |w.deposits| && served == Commitments(w.deposits)[..|served|]
    requires Half(Poseidon(), tree, served, cfg.depth, base, m, k)
    requires CommitmentOf(note) in served
    ensures m < |served| ==> HalfWrittenVerdict(cfg, w, tree, served, m, k, i, level, note, to, now)
    ensures m == |served| ==>
      (Paid(cfg, w.pool, ClientWithdrawal(cfg, tree, served, note, to, now)) <==> Payable(w, note, to, m))
  {
    if m < |served| {
      i, level := WithdrawalFromHalfWritten(cfg, w, initial, base, served, m, k, tree, note, to, now);
    } else {
      i, level := 0, 0;
      assert served[..m] == served;
      DepositsFit(cfg, w, initial);
      WithdrawalFromPrefix(cfg, w, initial, tree, served, m, note, to, now);
    }
  }

  /**
   End to end, for every state a running backend can be in. Without a root nothing is accepted. A tree
   that counts all m commitments served accepts what is `Payable`. Otherwise the tree is a complete one
   of the first m, with k writes of the addition of leaf m that were never followed by the rest, and
   `HalfWrittenVerdict` decides.
   */
  lemma {:induction false} EndToEndRunning(cfg: Config, initial: map<Pubkey, nat>, ixs: seq<Instruction>, limit: nat,
      ledger: seq<Tx<Field>>, actions: seq<Action>, note: Note, to: Pubkey, now: i64)
    returns (base: Tree<Field>, m: nat, k: nat, i: nat, level: nat)
    requires Scenario(cfg, initial, ixs, limit, ledger, actions)
    requires !EndsSpoilt(Poseidon(), cfg.depth, limit, ledger, FreshNode(), false, actions)
    requires NodeAfter(cfg, limit, ledger, actions).up
    requires CommitmentOf(note) in Served(NodeAfter(cfg, limit, ledger, actions))
    ensures var w, s := Exec(cfg, Genesis(cfg, initial), ixs), NodeAfter(cfg, limit, ledger, actions);
            var paid := Paid(cfg, w.pool, ClientWithdrawal(cfg, s.backend.tree, Served(s), note, to, now));
            if s.backend.tree.root.None? then !paid
            else && Half(Poseidon(), s.backend.tree, Served(s), cfg.depth, base, m, k)
                 && m <= |w.deposits|
                 && if m == |Served(s)| then paid <==> Payable(w, note, to, m)
                    else HalfWrittenVerdict(cfg, w, s.backend.tree, Served(s), m, k, i, level, note, to, now)
  {
    var w, s := Exec(cfg, Genesis(cfg, initial), ixs), NodeAfter(cfg, limit, ledger, actions);
    ScenarioHolds(cfg, initial, ixs, limit, ledger, actions);
    base, m, k := RunningTree(cfg, initial, ixs, limit, ledger, actions);
    i, level := 0, 0;
    if s.backend.tree.root.Some? {
      i, level := WithdrawalFromHalf(cfg, w, initial, s.backend.tree, Served(s), base, m, k, note, to, now);
    }
  }

  /**
   From any sound node, one restart that completes and one tick without faults that sees the whole
   chain bring the backend in step, with every deposit in its tree.
   */
  lemma {:induction false} BackendCatchesUp(cfg: Config, w: World, limit: nat, ledger: seq<Tx<Field>>, s: Node<Field>,
                         restart: Action, tick: Action)
    requires Tells(Flatten(ledger), w)
    requires NodeSound(Poseidon(), cfg.depth, ledger, s)
    requires restart.Restart? && Act(Poseidon(), cfg.depth, limit, ledger, s, restart).up
    requires NoFault(cfg.depth, ledger, tick) && tick.seen == |ledger|
    requires KeepsUp(limit, ledger, Act(Poseidon(), cfg.depth, limit, ledger, s, restart), tick)
    ensures var s' := Act(Poseidon(), cfg.depth, limit, ledger,
                          Act(Poseidon(), cfg.depth, limit, ledger, s, restart), tick);
            && InStep(s') && GetSize(s'.backend.tree) == |w.deposits|
            && Stored(Poseidon(), s'.backend.tree, Commitments(w.deposits), cfg.depth)
  {
    var s' := CatchUp(Poseidon(), cfg.depth, limit, ledger, s, restart, tick);
    assert Flatten(ledger)[..s'.upto] == Flatten(ledger);
    ServedIsLog(ledger, s');
  }
}
