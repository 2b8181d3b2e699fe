/** From the program to the log: what the events of a run tell the indexer. */
module ChainLog {
  import opened Wrappers
  import opened Merkle
  import opened Circuit
  import opened Events
  import opened Pool
  import opened PoolRuns
  import opened Database
  import opened LogImage

  function LogOf(events: seq<Event<Field>>): (lines: seq<Payload<Field>>)
    ensures |lines| == |events|
  {
    seq(|events|, i requires 0 <= i < |events| => PayloadOf(events[i]))
  }

  /** The lines tell the indexer exactly the deposits and the spent nullifiers of the world. */
  ghost predicate Tells(lines: seq<Payload<Field>>, w: World) {
    && History(w)
    && WellFormed(lines)
    && Leaves(lines) == Commitments(w.deposits)
    && |LogRoots(lines)| == |w.deposits|
    && (forall i | 0 <= i < |w.deposits| :: LogRoots(lines)[i] == RootRow(w.deposits[i].newRoot, i))
    && Spent(lines) == map nh | nh in w.pool.records :: NullifierRow(w.pool.records[nh].recipient, 0)
  }

  /** No line repeats anything: leaf indices count up from 0, no nullifier comes twice. */
  ghost predicate Strict<T>(lines: seq<Payload<T>>) {
    forall j | 0 <= j < |lines| :: IsNew(lines[j], lines[..j])
  }

  ghost predicate IsNew<T>(line: Payload<T>, before: seq<Payload<T>>) {
    match line
    case Deposited(_, leafIndex, _) => leafIndex == |Leaves(before)|
    case Withdrawn(nullifierHash, _) => nullifierHash !in Spent(before)
    case Ignored => true
  }

  /** The events of a run are such lines. */
  ghost predicate Logged(w: World) {
    Tells(LogOf(w.events), w) && Strict(LogOf(w.events))
  }

  lemma LogGrows(events: seq<Event<Field>>, e: Event<Field>)
    ensures LogOf(events + [e]) == LogOf(events) + [PayloadOf(e)]
  {
  }

  lemma {:induction false} LinesGrow<T>(lines: seq<Payload<T>>, line: Payload<T>)
    requires WellFormed(lines) && Strict(lines) && IsNew(line, lines)
    requires line.Deposited? ==> |Leaves(lines)| < 0x4000_0000
    ensures WellFormed(lines + [line]) && Strict(lines + [line])
  {
    var all := lines + [line];
    assert all[..|lines|] == lines;
    forall j | 0 <= j < |all| ensures LineFits(all, j) && IsNew(all[j], all[..j]) {
      if j < |lines| {
        assert all[..j] == lines[..j];
        assert LineFits(lines, j) && IsNew(lines[j], lines[..j]);
      }
    }
  }

  lemma DepositLogged(cfg: Config, w: World, w': World, ix: Instruction, initial: map<Pubkey, nat>)
    requires Sound(cfg, w, initial) && Logged(w) && History(w')
    requires AcceptedDeposit(cfg, w, w', ix)
    ensures Logged(w')
  {
    var e := DepositEvent(ix.commitment, w.pool.nextLeafIndex, ix.now, ix.newRoot);
    var lines := LogOf(w.events);
    MaxLeavesFits(cfg.depth);
    LogGrows(w.events, e);
    LinesGrow(lines, PayloadOf(e));
    assert (lines + [PayloadOf(e)])[..|lines|] == lines;
    assert Commitments(w'.deposits) == Commitments(w.deposits) + [ix.commitment];
  }

  lemma WithdrawalLogged(cfg: Config, w: World, w': World, ix: Instruction)
    requires Logged(w) && History(w')
    requires AcceptedWithdrawal(cfg, w, w', ix)
    ensures Logged(w')
  {
    var e := WithdrawEvent(ix.nullifierHash, ix.recipient, ix.now);
    var lines := LogOf(w.events);
    LogGrows(w.events, e);
    LinesGrow(lines, PayloadOf(e));
    assert (lines + [PayloadOf(e)])[..|lines|] == lines;
  }

  lemma {:induction false} RunIsLogged(cfg: Config, w: World, ixs: seq<Instruction>, initial: map<Pubkey, nat>)
    requires Sound(cfg, w, initial) && Logged(w)
    ensures Logged(Exec(cfg, w, ixs))
    decreases |ixs|
  {
    if |ixs| > 0 {
      var w' := Step(cfg, w, ixs[0]);
      StepIsSound(cfg, w, ixs[0], initial);
      StepCases(cfg, w, ixs[0]);
      if AcceptedDeposit(cfg, w, w', ixs[0]) {
        DepositLogged(cfg, w, w', ixs[0], initial);
      } else if AcceptedWithdrawal(cfg, w, w', ixs[0]) {
        WithdrawalLogged(cfg, w, w', ixs[0]);
      }
      RunIsLogged(cfg, w', ixs[1..], initial);
    }
  }

  /** The events of every run from the creation of the pool. */
  lemma {:induction false} RunIsTold(cfg: Config, ixs: seq<Instruction>, initial: map<Pubkey, nat>)
    ensures var w := Exec(cfg, Genesis(cfg, initial), ixs);
            Tells(LogOf(w.events), w) && Strict(LogOf(w.events))
  {
    GenesisIsSound(cfg, initial);
    RunIsLogged(cfg, Genesis(cfg, initial), ixs, initial);
  }
}
