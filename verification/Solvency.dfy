/**
 Honest runs: every accepted deposit commits to the amount it pays and brings the root the
 merkle service computes (useDeposit.ts). Withdrawals are arbitrary. Then the pool can
 always pay.
 */
module Solvency {
  import opened Wrappers
  import opened Bytes
  import opened Merkle
  import opened Circuit
  import opened Events
  import opened Pool
  import opened PoolRuns

  /** The commitment binds exactly this amount. */
  ghost predicate IsNote(commitment: Field, amount: u64) {
    exists n, s :: commitment == Hash3(n, s, Lit(amount))
  }

  /** The root `fetchNewRootFromMerkle` obtains for one more commitment. */
  function RebuiltRoot(cfg: Config, commitments: seq<Field>): Field {
    Root(Poseidon(), commitments, cfg.depth)
  }

  ghost predicate HonestIx(cfg: Config, w: World, ix: Instruction) {
    ix.Deposit? ==>
      && IsNote(ix.commitment, ix.amount)
      && History(w)
      && ix.newRoot == RebuiltRoot(cfg, Commitments(w.deposits) + [ix.commitment])
  }

  /** Whatever the pool accepts in this run is honest. */
  ghost predicate HonestRun(cfg: Config, w: World, ixs: seq<Instruction>)
    decreases |ixs|
  {
    |ixs| > 0 ==>
      && (Execute(cfg, w.pool, ixs[0]).Ok? ==> HonestIx(cfg, w, ixs[0]))
      && HonestRun(cfg, Step(cfg, w, ixs[0]), ixs[1..])
  }

  ghost predicate HonestWorld(cfg: Config, w: World)
    requires History(w)
  {
    forall j | 0 <= j < |w.deposits| :: HonestDeposit(cfg, w, j)
  }

  ghost predicate HonestDeposit(cfg: Config, w: World, j: nat)
    requires History(w) && j < |w.deposits|
  {
    && IsNote(w.deposits[j].commitment, w.deposits[j].amount)
    && w.deposits[j].newRoot == RebuiltRoot(cfg, Commitments(w.deposits)[..j + 1])
  }

  /** The withdrawal spends the note of this deposit, for its exact amount. */
  ghost predicate Spends(d: Instruction, x: Instruction)
    requires d.Deposit? && x.Withdraw?
  {
    && x.amount == d.amount
    && exists n, s :: d.commitment == Hash3(n, s, Lit(d.amount)) && x.nullifierHash == Hash1(n)
  }

  /** `f` sends each accepted withdrawal to the deposit it spends, no two to the same. */
  ghost predicate Matching(w: World, f: seq<nat>)
    requires History(w)
  {
    && |f| == |w.withdrawals|
    && (forall j | 0 <= j < |f| :: f[j] < |w.deposits| && Spends(w.deposits[f[j]], w.withdrawals[j]))
    && (forall j, k | 0 <= j < k < |f| :: f[j] != f[k])
  }

  // ---------- a valid proof spends a deposit ----------

  lemma AcceptedRootNotEmpty(depth: nat, pub: PublicInputs, w: Witness)
    requires Accepts(depth, pub, w)
    ensures pub.root != EMPTY_ROOT
  {
    if depth > 0 {
      var m := depth - 1;
      FoldStep(Poseidon(), Hash3(w.nullifier, w.secret, pub.amount), w.merkleProof, w.isEven, m);
      PoseidonIsIdeal();
    }
  }

  /** A root the pool knows and a proof can be made for is the root after some deposit. */
  lemma KnownRootIsRebuilt(cfg: Config, w: World, initial: map<Pubkey, nat>, root: Field)
    returns (k: nat)
    requires Sound(cfg, w, initial) && HonestWorld(cfg, w)
    requires IsKnown(w.pool, root) && root != EMPTY_ROOT
    ensures 0 < k <= |w.deposits| && root == RebuiltRoot(cfg, Commitments(w.deposits)[..k])
  {
    KnownIsLastTen(cfg, w, root);
    var n, h := |w.deposits|, RootHistory(w);
    var i :| 0 <= i < |h[n..]| && h[n..][i] == root;
    assert h[n + i] == root;
    var j := n + i - ROOT_HISTORY_SIZE;
    assert HonestDeposit(cfg, w, j);
    k := j + 1;
  }

  lemma ValidProofSpendsDeposit(cfg: Config, w: World, initial: map<Pubkey, nat>, ix: Instruction)
    returns (i: nat)
    requires Sound(cfg, w, initial) && HonestWorld(cfg, w)
    requires ix.Withdraw? && IsKnown(w.pool, ix.root)
    requires Accepts(cfg.depth, PublicInputsOf(ix), ix.proof.private)
    ensures i < |w.deposits| && Spends(w.deposits[i], ix)
    ensures w.deposits[i].commitment == Hash3(ix.proof.private.nullifier, ix.proof.private.secret, Lit(ix.amount))
  {
    var pub, secret := PublicInputsOf(ix), ix.proof.private;
    AcceptedRootNotEmpty(cfg.depth, pub, secret);
    var k := KnownRootIsRebuilt(cfg, w, initial, ix.root);
    AcceptedIsMember(cfg.depth, Commitments(w.deposits)[..k], pub, secret);
    i := Descend(secret.isEven, 0);
    var d := w.deposits[i];
    assert d.commitment == Hash3(secret.nullifier, secret.secret, Lit(ix.amount));
    assert HonestDeposit(cfg, w, i);
  }

  /** Withdrawals with different nullifier hashes spend different deposits. */
  lemma DifferentNullifierDifferentDeposit(deposits: seq<Instruction>, i: nat, k: nat, x: Instruction, y: Instruction)
    requires i < |deposits| && k < |deposits| && deposits[i].Deposit? && deposits[k].Deposit?
    requires x.Withdraw? && y.Withdraw? && x.nullifierHash != y.nullifierHash
    requires Spends(deposits[i], x) && Spends(deposits[k], y)
    ensures i != k
  {
  }

  lemma FreshDeposit(w: World, f: seq<nat>, ix: Instruction, i: nat)
    requires History(w) && Recorded(w) && Matching(w, f)
    requires ix.Withdraw? && ix.nullifierHash !in w.pool.records
    requires i < |w.deposits| && Spends(w.deposits[i], ix)
    ensures i !in f
  {
    forall j | 0 <= j < |f| ensures f[j] != i {
      assert RecordOf(w, j);
      DifferentNullifierDifferentDeposit(w.deposits, f[j], i, w.withdrawals[j], ix);
    }
  }

  // ---------- sums ----------

  lemma {:induction false} SumWithout(a: seq<Instruction>, i: nat)
    requires i < |a|
    ensures Sum(a) == Sum(a[i := a[i].(amount := 0)]) + a[i].amount
  {
    var m := |a| - 1;
    var a' := a[i := a[i].(amount := 0)];
    if i < m {
      SumWithout(a[..m], i);
      assert a'[..m] == a[..m][i := a[i].(amount := 0)];
    } else {
      assert a'[..m] == a[..m];
    }
  }

  /** Amounts picked from distinct positions add up to at most the whole. */
  lemma {:induction false} PickedAtMostAll(a: seq<Instruction>, b: seq<Instruction>, f: seq<nat>)
    requires |f| == |b|
    requires forall j | 0 <= j < |f| :: f[j] < |a| && b[j].amount == a[f[j]].amount
    requires forall j, k | 0 <= j < k < |f| :: f[j] != f[k]
    ensures Sum(b) <= Sum(a)
    decreases |b|
  {
    if |b| > 0 {
      var m := |b| - 1;
      SumWithout(a, f[m]);
      PickedAtMostAll(a[f[m] := a[f[m]].(amount := 0)], b[..m], f[..m]);
    }
  }

  /** A withdrawal that spends one more deposit is covered by the vault. */
  lemma VaultCovers(cfg: Config, w: World, initial: map<Pubkey, nat>, f: seq<nat>, ix: Instruction, i: nat)
    requires Sound(cfg, w, initial) && Matching(w, f)
    requires ix.Withdraw? && ix.nullifierHash !in w.pool.records
    requires i < |w.deposits| && Spends(w.deposits[i], ix)
    ensures ix.amount <= Balance(w.pool.lamports, cfg.vault)
  {
    FreshDeposit(w, f, ix, i);
    var all, g := w.withdrawals + [ix], f + [i];
    PickedAtMostAll(w.deposits, all, g);
    assert all[..|w.withdrawals|] == w.withdrawals;
    PaidOutAtMostSum(cfg, w.withdrawals);
  }

  // ---------- every honest run ----------

  ghost predicate Solvent(cfg: Config, w: World, initial: map<Pubkey, nat>) {
    && Sound(cfg, w, initial)
    && HonestWorld(cfg, w)
    && exists f :: Matching(w, f)
  }

  lemma DepositKeepsSolvent(cfg: Config, w: World, w': World, ix: Instruction, initial: map<Pubkey, nat>)
    requires Solvent(cfg, w, initial) && Sound(cfg, w', initial)
    requires AcceptedDeposit(cfg, w, w', ix) && HonestIx(cfg, w, ix)
    ensures Solvent(cfg, w', initial)
  {
    var c, c' := Commitments(w.deposits), Commitments(w'.deposits);
    assert c' == c + [ix.commitment];
    forall j | 0 <= j < |w'.deposits| ensures HonestDeposit(cfg, w', j) {
      if j < |w.deposits| {
        assert HonestDeposit(cfg, w, j);
        assert c'[..j + 1] == c[..j + 1];
      } else {
        assert c'[..j + 1] == c';
      }
    }
    var f :| Matching(w, f);
    assert Matching(w', f);
  }

  lemma WithdrawalKeepsSolvent(cfg: Config, w: World, w': World, ix: Instruction, initial: map<Pubkey, nat>)
    requires Solvent(cfg, w, initial) && Sound(cfg, w', initial)
    requires AcceptedWithdrawal(cfg, w, w', ix)
    ensures Solvent(cfg, w', initial)
  {
    var i := ValidProofSpendsDeposit(cfg, w, initial, ix);
    var f :| Matching(w, f);
    FreshDeposit(w, f, ix, i);
    assert Matching(w', f + [i]);
    forall j | 0 <= j < |w'.deposits| ensures HonestDeposit(cfg, w', j) {
      assert HonestDeposit(cfg, w, j);
    }
  }

  lemma {:induction false} HonestRunIsSolvent(cfg: Config, w: World, ixs: seq<Instruction>, initial: map<Pubkey, nat>)
    requires Solvent(cfg, w, initial) && HonestRun(cfg, w, ixs)
    ensures Solvent(cfg, Exec(cfg, w, ixs), initial)
    decreases |ixs|
  {
    if |ixs| > 0 {
      var w' := Step(cfg, w, ixs[0]);
      StepIsSound(cfg, w, ixs[0], initial);
      StepCases(cfg, w, ixs[0]);
      if AcceptedDeposit(cfg, w, w', ixs[0]) {
        DepositKeepsSolvent(cfg, w, w', ixs[0], initial);
      } else if AcceptedWithdrawal(cfg, w, w', ixs[0]) {
        WithdrawalKeepsSolvent(cfg, w, w', ixs[0], initial);
      }
      HonestRunIsSolvent(cfg, w', ixs[1..], initial);
    }
  }

  /**
   Solvency: after every honest run the accepted withdrawals spend distinct deposits of equal
   amount, so no more was withdrawn than deposited, and the vault holds the difference.
   */
  lemma {:induction false} Solvency(cfg: Config, initial: map<Pubkey, nat>, ixs: seq<Instruction>)
    requires HonestRun(cfg, Genesis(cfg, initial), ixs)
    ensures var w := Exec(cfg, Genesis(cfg, initial), ixs);
            && Solvent(cfg, w, initial)
            && Sum(w.withdrawals) <= Sum(w.deposits)
            && Balance(w.pool.lamports, cfg.vault)
               >= Balance(initial, cfg.vault) + Sum(w.deposits) - Sum(w.withdrawals)
  {
    var w0 := Genesis(cfg, initial);
    var w := Exec(cfg, w0, ixs);
    GenesisIsSound(cfg, initial);
    assert Matching(w0, []);
    HonestRunIsSolvent(cfg, w0, ixs, initial);
    var f :| Matching(w, f);
    PickedAtMostAll(w.deposits, w.withdrawals, f);
    PaidOutAtMostSum(cfg, w.withdrawals);
  }

  /** The vault check never decides: a withdrawal succeeds exactly when its other checks pass. */
  lemma WithdrawalExact(cfg: Config, w: World, initial: map<Pubkey, nat>, ix: Instruction)
    requires Solvent(cfg, w, initial) && ix.Withdraw?
    ensures WithdrawIx(cfg, w.pool, ix).Ok? <==>
            && ix.nullifierHash !in w.pool.records
            && ix.verifierProgram == cfg.verifier
            && ix.recipient == ix.to
            && IsKnown(w.pool, ix.root)
            && Verifies(cfg.depth, ix.proof, PublicInputsOf(ix))
  {
    if ix.nullifierHash !in w.pool.records && IsKnown(w.pool, ix.root)
       && Verifies(cfg.depth, ix.proof, PublicInputsOf(ix)) {
      var i := ValidProofSpendsDeposit(cfg, w, initial, ix);
      var f :| Matching(w, f);
      VaultCovers(cfg, w, initial, f, ix, i);
    }
  }

  // ---------- the roots of an honest run ----------

  lemma NotesNotEmpty(cfg: Config, w: World, n: nat)
    requires History(w) && HonestWorld(cfg, w) && n <= |w.deposits|
    ensures EMPTY_LEAF !in Commitments(w.deposits)[..n]
  {
    forall j | 0 <= j < n ensures Commitments(w.deposits)[..n][j] != EMPTY_LEAF {
      assert HonestDeposit(cfg, w, j);
    }
  }

  /** Root after m deposits equals root after k deposits only for m = k, and is never the empty root. */
  lemma HonestRootsDistinct(cfg: Config, w: World, initial: map<Pubkey, nat>, m: nat, k: nat)
    requires Sound(cfg, w, initial) && HonestWorld(cfg, w)
    requires 0 < m <= |w.deposits| && k <= |w.deposits|
    ensures RebuiltRoot(cfg, Commitments(w.deposits)[..m]) != EMPTY_ROOT
    ensures RebuiltRoot(cfg, Commitments(w.deposits)[..m]) == RebuiltRoot(cfg, Commitments(w.deposits)[..k]) ==> m == k
  {
    var c := Commitments(w.deposits);
    PoseidonIsIdeal();
    NotesNotEmpty(cfg, w, m);
    NotesNotEmpty(cfg, w, k);
    RootNotEmpty(Poseidon(), c[..m], cfg.depth);
    if RebuiltRoot(cfg, c[..m]) == RebuiltRoot(cfg, c[..k]) {
      RootDeterminesLeaves(Poseidon(), c[..m], c[..k], cfg.depth);
      assert |c[..m]| == |c[..k]|;
    }
  }

  /** The window is exact: the root after deposit m is known until nine more deposits have followed. */
  lemma HonestRootWindow(cfg: Config, w: World, initial: map<Pubkey, nat>, m: nat)
    requires Sound(cfg, w, initial) && HonestWorld(cfg, w)
    requires 0 < m <= |w.deposits|
    ensures IsKnown(w.pool, RebuiltRoot(cfg, Commitments(w.deposits)[..m])) <==> |w.deposits| - m <= 9
  {
    var n, h := |w.deposits|, RootHistory(w);
    var root := RebuiltRoot(cfg, Commitments(w.deposits)[..m]);
    KnownIsLastTen(cfg, w, root);
    HonestRootsDistinct(cfg, w, initial, m, m);
    assert HonestDeposit(cfg, w, m - 1);
    assert h[m + 9] == root;
    if n - m <= 9 {
      assert h[n..][m + 9 - n] == root;
    } else {
      forall i | 0 <= i < |h[n..]| ensures h[n..][i] != root {
        var k := n + i - 9;
        assert HonestDeposit(cfg, w, k - 1);
        HonestRootsDistinct(cfg, w, initial, m, k);
      }
    }
  }

  /** The root guard rejects no honest deposit: only a full tree, a small amount or missing funds do. */
  lemma DepositExact(cfg: Config, w: World, initial: map<Pubkey, nat>, ix: Instruction)
    requires Solvent(cfg, w, initial)
    requires ix.Deposit? && HonestIx(cfg, w, ix)
    ensures DepositIx(cfg, w.pool, ix).Ok? <==>
            && ix.depositor != cfg.vault
            && |w.deposits| < Pow2(cfg.depth)
            && ix.amount >= MIN_DEPOSIT_AMOUNT
            && Balance(w.pool.lamports, ix.depositor) >= ix.amount
  {
    if |w.deposits| < Pow2(cfg.depth) {
      HonestRootIsNew(cfg, w, initial, ix.commitment, ix.amount);
    }
  }

  lemma HonestRootIsNew(cfg: Config, w: World, initial: map<Pubkey, nat>, commitment: Field, amount: u64)
    requires Sound(cfg, w, initial) && HonestWorld(cfg, w)
    requires |w.deposits| < Pow2(cfg.depth) && IsNote(commitment, amount)
    ensures RebuiltRoot(cfg, Commitments(w.deposits) + [commitment]) != w.pool.roots[w.pool.currentRootIndex]
    ensures RebuiltRoot(cfg, Commitments(w.deposits) + [commitment]) != EMPTY_ROOT
  {
    var n, c := |w.deposits|, Commitments(w.deposits);
    var c' := c + [commitment];
    PoseidonIsIdeal();
    assert c[..n] == c;
    NotesNotEmpty(cfg, w, n);
    RootNotEmpty(Poseidon(), c', cfg.depth);
    RingPush(RootHistory(w), w.pool.roots, n, EMPTY_ROOT);
    assert RootHistory(w)[n + 9] == w.pool.roots[w.pool.currentRootIndex];
    if n > 0 {
      assert HonestDeposit(cfg, w, n - 1);
      if RebuiltRoot(cfg, c) == RebuiltRoot(cfg, c') {
        RootDeterminesLeaves(Poseidon(), c, c', cfg.depth);
        assert false;
      }
    }
  }
}
