/**
 Runs of the program: any sequence of instructions by anyone, accepted or refused.
 What every run keeps about the counters, the ring of roots, the records and the money.
 */
module PoolRuns {
  import opened Wrappers
  import opened Bytes
  import opened Merkle
  import opened Circuit
  import opened Events
  import opened Pool

  /** The program's state and the history of what it accepted. */
  datatype World = World(pool: PoolState, deposits: seq<Instruction>, withdrawals: seq<Instruction>,
      events: seq<Event<Field>>)

  function Genesis(cfg: Config, lamports: map<Pubkey, nat>): World {
    World(InitialPool(cfg.authority, lamports), [], [], [])
  }

  /** A refused instruction leaves no trace. */
  function Step(cfg: Config, w: World, ix: Instruction): World {
    match Execute(cfg, w.pool, ix)
    case Err(_) => w
    case Ok(done) =>
      World(done.state,
            if ix.Deposit? then w.deposits + [ix] else w.deposits,
            if ix.Deposit? then w.withdrawals else w.withdrawals + [ix],
            w.events + [done.event])
  }

  /** What an accepted deposit changes. */
  ghost predicate AcceptedDeposit(cfg: Config, w: World, w': World, ix: Instruction) {
    var p, q := w.pool, w'.pool;
    && ix.Deposit?
    && w'.deposits == w.deposits + [ix] && w'.withdrawals == w.withdrawals
    && w'.events == w.events + [DepositEvent(ix.commitment, p.nextLeafIndex, ix.now, ix.newRoot)]
    && p.nextLeafIndex < Pow2(cfg.depth) < 0x1_0000_0000_0000_0000
    && ix.newRoot != p.roots[p.currentRootIndex]
    && q == p.(nextLeafIndex := p.nextLeafIndex + 1, totalDeposits := p.totalDeposits + 1,
               currentRootIndex := NextSlot(p.currentRootIndex),
               roots := p.roots[NextSlot(p.currentRootIndex) := ix.newRoot],
               lamports := q.lamports)
    && ix.depositor != cfg.vault
    && Transfer(p.lamports, ix.depositor, cfg.vault, ix.amount) == Some(q.lamports)
  }

  /** What an accepted withdrawal changes. */
  ghost predicate AcceptedWithdrawal(cfg: Config, w: World, w': World, ix: Instruction) {
    var p, q := w.pool, w'.pool;
    && ix.Withdraw?
    && w'.deposits == w.deposits && w'.withdrawals == w.withdrawals + [ix]
    && w'.events == w.events + [WithdrawEvent(ix.nullifierHash, ix.recipient, ix.now)]
    && ix.recipient == ix.to
    && ix.nullifierHash !in p.records
    && IsKnown(p, ix.root)
    && Accepts(cfg.depth, PublicInputsOf(ix), ix.proof.private)
    && q == p.(records := p.records[ix.nullifierHash := NullifierRecord(ix.nullifierHash, ix.to, ix.amount, ix.now)],
               lamports := q.lamports)
    && Transfer(p.lamports, cfg.vault, ix.to, ix.amount) == Some(q.lamports)
  }

  lemma StepCases(cfg: Config, w: World, ix: Instruction)
    ensures var w' := Step(cfg, w, ix);
            if Execute(cfg, w.pool, ix).Err? then w' == w
            else if ix.Deposit? then AcceptedDeposit(cfg, w, w', ix) else AcceptedWithdrawal(cfg, w, w', ix)
  {
    MaxLeavesFits(cfg.depth);
  }

  function Exec(cfg: Config, w: World, ixs: seq<Instruction>): World
    decreases |ixs|
  {
    if |ixs| == 0 then w else Exec(cfg, Step(cfg, w, ixs[0]), ixs[1..])
  }

  ghost predicate History(w: World) {
    && (forall d <- w.deposits :: d.Deposit?)
    && (forall x <- w.withdrawals :: x.Withdraw?)
  }

  function Commitments(deposits: seq<Instruction>): (c: seq<Field>)
    requires forall d <- deposits :: d.Deposit?
    ensures |c| == |deposits|
  {
    seq(|deposits|, i requires 0 <= i < |deposits| => deposits[i].commitment)
  }

  // ---------- counters and the ring ----------

  /** Every root the pool ever held: ten empty ones, then one for each deposit. */
  function RootHistory(w: World): (h: seq<Field>)
    requires History(w)
    ensures |h| == ROOT_HISTORY_SIZE + |w.deposits|
  {
    seq(ROOT_HISTORY_SIZE + |w.deposits|, p requires 0 <= p < ROOT_HISTORY_SIZE + |w.deposits| =>
      if p < ROOT_HISTORY_SIZE then EMPTY_ROOT else w.deposits[p - ROOT_HISTORY_SIZE].newRoot)
  }

  ghost predicate Counted(cfg: Config, w: World) {
    var n := |w.deposits|;
    && w.pool.nextLeafIndex == w.pool.totalDeposits == n <= Pow2(cfg.depth)
    && w.pool.currentRootIndex == n % ROOT_HISTORY_SIZE
  }

  /** Entry `p` of the history sits in slot p + 1, counted around the ring. */
  ghost predicate Windowed(w: World)
    requires History(w)
  {
    RingHolds(RootHistory(w), w.pool.roots, |w.deposits|)
  }

  ghost predicate RingHolds(h: seq<Field>, ring: Ring, n: nat)
    requires |h| == n + ROOT_HISTORY_SIZE
  {
    forall p: nat | n <= p < n + ROOT_HISTORY_SIZE :: h[p] == ring[(p + 1) % ROOT_HISTORY_SIZE]
  }

  lemma RingPush(h: seq<Field>, ring: Ring, n: nat, root: Field)
    requires |h| == n + ROOT_HISTORY_SIZE && RingHolds(h, ring, n)
    ensures RingHolds(h + [root], ring[(n + 1) % ROOT_HISTORY_SIZE := root], n + 1)
    ensures h[n + 9] == ring[n % ROOT_HISTORY_SIZE]
  {
    assert h[n + 9] == ring[(n + 9 + 1) % ROOT_HISTORY_SIZE];
  }

  ghost predicate NeighboursDiffer(w: World)
    requires History(w)
  {
    Alternates(RootHistory(w))
  }

  ghost predicate Alternates(h: seq<Field>) {
    forall p | ROOT_HISTORY_SIZE <= p < |h| :: h[p] != h[p - 1]
  }

  lemma SlotAdvances(n: nat)
    ensures NextSlot(n % ROOT_HISTORY_SIZE) == (n + 1) % ROOT_HISTORY_SIZE
  {
  }

  lemma HistoryGrows(w: World, w': World, ix: Instruction)
    requires History(w) && ix.Deposit? && w'.deposits == w.deposits + [ix] && History(w')
    ensures RootHistory(w') == RootHistory(w) + [ix.newRoot]
  {
  }

  lemma DepositKeepsWindow(cfg: Config, w: World, w': World, ix: Instruction)
    requires History(w) && Counted(cfg, w) && Windowed(w) && NeighboursDiffer(w)
    requires AcceptedDeposit(cfg, w, w', ix)
    ensures History(w') && Counted(cfg, w') && Windowed(w') && NeighboursDiffer(w')
  {
    assert History(w');
    HistoryGrows(w, w', ix);
    SlotAdvances(|w.deposits|);
    RingPush(RootHistory(w), w.pool.roots, |w.deposits|, ix.newRoot);
  }

  /** The roots the pool knows are exactly the last ten of its history. */
  lemma KnownIsLastTen(cfg: Config, w: World, root: Field)
    requires History(w) && Counted(cfg, w) && Windowed(w)
    ensures IsKnown(w.pool, root) <==> root in RootHistory(w)[|w.deposits|..]
  {
    RingMembers(RootHistory(w), w.pool.roots, |w.deposits|, root);
  }

  lemma RingMembers(h: seq<Field>, ring: Ring, n: nat, root: Field)
    requires |h| == n + ROOT_HISTORY_SIZE && RingHolds(h, ring, n)
    ensures root in ring <==> root in h[n..]
  {
    if root in ring {
      var s: nat :| s < ROOT_HISTORY_SIZE && ring[s] == root;
      var p := SlotPosition(n, s);
      assert h[n..][p - n] == root;
    }
    if root in h[n..] {
      var i :| 0 <= i < |h[n..]| && h[n..][i] == root;
      assert h[n + i] == ring[(n + i + 1) % ROOT_HISTORY_SIZE];
    }
  }

  /** Every slot holds one of the last ten positions. */
  lemma SlotPosition(n: nat, s: nat) returns (p: nat)
    requires s < ROOT_HISTORY_SIZE
    ensures n <= p < n + ROOT_HISTORY_SIZE && (p + 1) % ROOT_HISTORY_SIZE == s
  {
    var q, a := n / 10, n % 10;
    if s > a {
      p := 10 * q + s - 1;
    } else {
      p := 10 * (q + 1) + s - 1;
    }
  }

  // ---------- records ----------

  ghost predicate Recorded(w: World)
    requires History(w)
  {
    && (forall nh <- w.pool.records :: exists j | 0 <= j < |w.withdrawals| :: w.withdrawals[j].nullifierHash == nh)
    && (forall j | 0 <= j < |w.withdrawals| :: RecordOf(w, j))
    && (forall j, k | 0 <= j < k < |w.withdrawals| :: w.withdrawals[j].nullifierHash != w.withdrawals[k].nullifierHash)
  }

  /** The record of the j-th accepted withdrawal. */
  ghost predicate RecordOf(w: World, j: nat)
    requires History(w) && j < |w.withdrawals|
  {
    var x := w.withdrawals[j];
    && x.nullifierHash in w.pool.records
    && w.pool.records[x.nullifierHash] == NullifierRecord(x.nullifierHash, x.to, x.amount, x.now)
  }

  lemma WithdrawalKeepsRecords(cfg: Config, w: World, w': World, ix: Instruction)
    requires History(w) && Recorded(w)
    requires AcceptedWithdrawal(cfg, w, w', ix)
    ensures History(w') && Recorded(w')
  {
    var n := |w.withdrawals|;
    forall nh <- w'.pool.records
      ensures exists j | 0 <= j < |w'.withdrawals| :: w'.withdrawals[j].nullifierHash == nh
    {
      if nh == ix.nullifierHash {
        assert w'.withdrawals[n].nullifierHash == nh;
      } else {
        var j :| 0 <= j < n && w.withdrawals[j].nullifierHash == nh;
        assert w'.withdrawals[j].nullifierHash == nh;
      }
    }
    forall j | 0 <= j < |w'.withdrawals|
      ensures RecordOf(w', j) && (j < n ==> w'.withdrawals[j].nullifierHash != ix.nullifierHash)
    {
      if j < n { assert RecordOf(w, j); }
    }
  }

  // ---------- money ----------

  ghost function Total(m: map<Pubkey, nat>): nat
    decreases |m|
  {
    if m == map[] then 0
    else
      var k :| k in m;
      TotalShrinks(m, k);
      m[k] + Total(m - {k})
  }

  lemma TotalShrinks(m: map<Pubkey, nat>, k: Pubkey)
    requires k in m
    ensures |m - {k}| < |m|
  {
    assert (m - {k}).Keys == m.Keys - {k};
  }

  lemma {:induction false} TotalWithout(m: map<Pubkey, nat>, k: Pubkey)
    requires k in m
    ensures Total(m) == m[k] + Total(m - {k})
    decreases |m|
  {
    var j :| j in m && Total(m) == m[j] + Total(m - {j});
    if j != k {
      TotalShrinks(m, j);
      TotalShrinks(m, k);
      TotalWithout(m - {j}, k);
      TotalWithout(m - {k}, j);
      assert m - {j} - {k} == m - {k} - {j};
    }
  }

  lemma TotalOfUpdate(m: map<Pubkey, nat>, k: Pubkey, v: nat)
    ensures Total(m[k := v]) == Total(m) - Balance(m, k) + v
  {
    var m' := m[k := v];
    TotalWithout(m', k);
    if k in m {
      TotalWithout(m, k);
      assert m' - {k} == m - {k};
    } else {
      assert m' - {k} == m;
    }
  }

  lemma {:induction false} TransferConserves(m: map<Pubkey, nat>, from: Pubkey, to: Pubkey, amount: nat)
    requires Transfer(m, from, to, amount).Some?
    ensures Total(Transfer(m, from, to, amount).value) == Total(m)
  {
    var taken := m[from := Balance(m, from) - amount];
    TotalOfUpdate(m, from, Balance(m, from) - amount);
    TotalOfUpdate(taken, to, Balance(taken, to) + amount);
  }

  function Sum(ixs: seq<Instruction>): nat {
    if |ixs| == 0 then 0 else Sum(ixs[..|ixs| - 1]) + ixs[|ixs| - 1].amount
  }

  /** What left the vault: a withdrawal to the vault itself moves nothing. */
  function SumPaidOut(cfg: Config, ixs: seq<Instruction>): nat
    requires forall x <- ixs :: x.Withdraw?
  {
    if |ixs| == 0 then 0
    else
      var x := ixs[|ixs| - 1];
      SumPaidOut(cfg, ixs[..|ixs| - 1]) + if x.to == cfg.vault then 0 else x.amount
  }

  lemma {:induction false} PaidOutAtMostSum(cfg: Config, ixs: seq<Instruction>)
    requires forall x <- ixs :: x.Withdraw?
    ensures SumPaidOut(cfg, ixs) <= Sum(ixs)
  {
    if |ixs| > 0 { PaidOutAtMostSum(cfg, ixs[..|ixs| - 1]); }
  }

  ghost predicate Conserved(cfg: Config, w: World, initial: map<Pubkey, nat>)
    requires History(w)
  {
    && Total(w.pool.lamports) == Total(initial)
    && Balance(w.pool.lamports, cfg.vault)
       == Balance(initial, cfg.vault) + Sum(w.deposits) - SumPaidOut(cfg, w.withdrawals)
  }

  lemma DepositConserves(cfg: Config, w: World, w': World, ix: Instruction, initial: map<Pubkey, nat>)
    requires History(w) && Conserved(cfg, w, initial)
    requires AcceptedDeposit(cfg, w, w', ix)
    ensures History(w') && Conserved(cfg, w', initial)
  {
    TransferConserves(w.pool.lamports, ix.depositor, cfg.vault, ix.amount);
    assert w'.deposits[..|w.deposits|] == w.deposits;
  }

  lemma WithdrawalConserves(cfg: Config, w: World, w': World, ix: Instruction, initial: map<Pubkey, nat>)
    requires History(w) && Conserved(cfg, w, initial)
    requires AcceptedWithdrawal(cfg, w, w', ix)
    ensures History(w') && Conserved(cfg, w', initial)
  {
    TransferConserves(w.pool.lamports, cfg.vault, ix.to, ix.amount);
    assert w'.withdrawals[..|w.withdrawals|] == w.withdrawals;
  }

  // ---------- every run ----------

  ghost predicate Sound(cfg: Config, w: World, initial: map<Pubkey, nat>) {
    && History(w)
    && Counted(cfg, w)
    && Windowed(w)
    && NeighboursDiffer(w)
    && Recorded(w)
    && Conserved(cfg, w, initial)
  }

  lemma GenesisIsSound(cfg: Config, initial: map<Pubkey, nat>)
    ensures Sound(cfg, Genesis(cfg, initial), initial)
  {
  }

  lemma StepIsSound(cfg: Config, w: World, ix: Instruction, initial: map<Pubkey, nat>)
    requires Sound(cfg, w, initial)
    ensures Sound(cfg, Step(cfg, w, ix), initial)
  {
    var w' := Step(cfg, w, ix);
    StepCases(cfg, w, ix);
    if AcceptedDeposit(cfg, w, w', ix) {
      DepositKeepsWindow(cfg, w, w', ix);
      DepositConserves(cfg, w, w', ix, initial);
      RecordsUntouched(w, w');
    } else if AcceptedWithdrawal(cfg, w, w', ix) {
      WithdrawalKeepsRecords(cfg, w, w', ix);
      WithdrawalConserves(cfg, w, w', ix, initial);
      WindowUntouched(cfg, w, w');
    }
  }

  lemma RecordsUntouched(w: World, w': World)
    requires History(w) && Recorded(w) && History(w')
    requires w'.withdrawals == w.withdrawals && w'.pool.records == w.pool.records
    ensures Recorded(w')
  {
    forall j | 0 <= j < |w'.withdrawals| ensures RecordOf(w', j) {
      assert RecordOf(w, j);
    }
  }

  lemma WindowUntouched(cfg: Config, w: World, w': World)
    requires History(w) && Counted(cfg, w) && Windowed(w) && NeighboursDiffer(w) && History(w')
    requires w'.deposits == w.deposits
    requires w'.pool.(records := w.pool.records, lamports := w.pool.lamports) == w.pool
    ensures Counted(cfg, w') && Windowed(w') && NeighboursDiffer(w')
  {
    assert RootHistory(w') == RootHistory(w);
  }

  lemma {:induction false} RunIsSound(cfg: Config, w: World, ixs: seq<Instruction>, initial: map<Pubkey, nat>)
    requires Sound(cfg, w, initial)
    ensures Sound(cfg, Exec(cfg, w, ixs), initial)
    decreases |ixs|
  {
    if |ixs| > 0 {
      StepIsSound(cfg, w, ixs[0], initial);
      RunIsSound(cfg, Step(cfg, w, ixs[0]), ixs[1..], initial);
    }
  }

  /** No instruction removes or rewrites a record, so a spent nullifier stays spent. */
  lemma {:induction false} RecordsPersist(cfg: Config, w: World, ixs: seq<Instruction>, nh: Field)
    requires nh in w.pool.records
    ensures var w' := Exec(cfg, w, ixs);
            && nh in w'.pool.records
            && w'.pool.records[nh] == w.pool.records[nh]
    decreases |ixs|
  {
    if |ixs| > 0 {
      StepCases(cfg, w, ixs[0]);
      RecordsPersist(cfg, Step(cfg, w, ixs[0]), ixs[1..], nh);
    }
  }

  /** Nothing but the creation of the pool sets its authority. */
  lemma {:induction false} AuthorityIsFixed(cfg: Config, w: World, ixs: seq<Instruction>)
    ensures Exec(cfg, w, ixs).pool.authority == w.pool.authority
    decreases |ixs|
  {
    if |ixs| > 0 {
      StepCases(cfg, w, ixs[0]);
      AuthorityIsFixed(cfg, Step(cfg, w, ixs[0]), ixs[1..]);
    }
  }

  lemma {:induction false} AuthorityIsCreator(cfg: Config, initial: map<Pubkey, nat>, ixs: seq<Instruction>)
    ensures Exec(cfg, Genesis(cfg, initial), ixs).pool.authority == cfg.authority
  {
    AuthorityIsFixed(cfg, Genesis(cfg, initial), ixs);
  }

  /** A pool without deposits knows the zero root and no other. */
  lemma GenesisKnows(cfg: Config, initial: map<Pubkey, nat>, root: Field)
    ensures IsKnown(Genesis(cfg, initial).pool, root) <==> root == Lit(0)
  {
    assert InitialRing()[0] == EMPTY_ROOT;
  }
}
