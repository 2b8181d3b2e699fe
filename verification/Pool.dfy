/**
 The on-chain program (programs/ptrans): the pool account with its ring of ten roots,
 the vault, and the nullifier records. `DepositIx` and `WithdrawIx` say what one
 instruction does to the state; the class is the program, proved against them.
 */
module Pool {
  import opened Wrappers
  import opened Bytes
  import opened Merkle
  import opened Circuit
  import opened Events
  import opened FieldReduction

  const ROOT_HISTORY_SIZE: nat := 10
  const MIN_DEPOSIT_AMOUNT: nat := 1_000_000
  const EMPTY_ROOT: Field := Lit(0)

  type RingIndex = n: nat | n < ROOT_HISTORY_SIZE
  type Ring = r: seq<Field> | |r| == ROOT_HISTORY_SIZE witness seq(ROOT_HISTORY_SIZE, _ => EMPTY_ROOT)

  datatype Error =
    | TreeFull | InvalidRoot | DepositTooSmall | RecipientMismatch | InvalidVerifier
    | InsufficientVaultBalance | InvalidProof
    | AccountAlreadyInUse | InsufficientFunds | MissingSignature  // raised by the platform

  /** 20 in the program. Up to 30, 2^depth is a positive 32-bit number, as every component needs. */
  type Depth = d: nat | d <= 30

  /** The depth of the tree, the vault's and the verifier's address, and who created the pool. */
  datatype Config = Config(depth: Depth, vault: Pubkey, verifier: Pubkey, authority: Pubkey)

  datatype NullifierRecord = NullifierRecord(nullifierHash: Field, recipient: Pubkey, amount: u64, timestamp: i64)

  datatype PoolState = PoolState(
    authority: Pubkey,
    nextLeafIndex: u64,
    totalDeposits: nat,
    currentRootIndex: RingIndex,
    roots: Ring,
    records: map<Field, NullifierRecord>,
    lamports: map<Pubkey, nat>)

  /** A proof is what the prover made for these public inputs from this witness. */
  datatype Proof = Proof(inputs: PublicInputs, private: Witness)

  datatype Instruction =
    | Deposit(depositor: Pubkey, commitment: Field, newRoot: Field, amount: u64, now: i64)
    | Withdraw(recipient: Pubkey, verifierProgram: Pubkey, proof: Proof,
               nullifierHash: Field, root: Field, to: Pubkey, amount: u64, now: i64)

  datatype Done = Done(state: PoolState, event: Event<Field>)

  lemma {:induction false} MaxLeavesFits(depth: Depth)
    ensures Pow2(depth) <= 0x4000_0000
  {
    Pow2Grows(depth, 30);
    assert Pow2(8) == 0x100;
    assert Pow2(16) == 0x1_0000;
    assert Pow2(24) == 0x100_0000;
    assert Pow2(30) == 0x4000_0000;
  }

  lemma {:induction false} Pow2Grows(a: nat, b: nat)
    requires a <= b
    ensures Pow2(a) <= Pow2(b)
    decreases b
  {
    if a < b { Pow2Grows(a, b - 1); }
  }

  function InitialRing(): Ring {
    seq(ROOT_HISTORY_SIZE, _ => EMPTY_ROOT)
  }

  function InitialPool(authority: Pubkey, lamports: map<Pubkey, nat>): PoolState {
    PoolState(authority, 0, 0, 0, InitialRing(), map[], lamports)
  }

  function Balance(lamports: map<Pubkey, nat>, key: Pubkey): nat {
    if key in lamports then lamports[key] else 0
  }

  /** The system program's transfer; paying oneself changes nothing. */
  function Transfer(lamports: map<Pubkey, nat>, from: Pubkey, to: Pubkey, amount: nat): Option<map<Pubkey, nat>> {
    if Balance(lamports, from) < amount then None
    else
      var taken := lamports[from := Balance(lamports, from) - amount];
      Some(taken[to := Balance(taken, to) + amount])
  }

  function Share(key: Pubkey, party: Pubkey, amount: nat): nat {
    if key == party then amount else 0
  }

  /** `amount` went from one balance to the other, and no other balance changed. */
  ghost predicate Moved(before: map<Pubkey, nat>, after: map<Pubkey, nat>, from: Pubkey, to: Pubkey, amount: nat) {
    forall key ::
      Balance(after, key) == Balance(before, key) - Share(key, from, amount) + Share(key, to, amount)
  }

  /** Who loses and who gains: nobody else, and nothing at all when payer and payee are one. */
  lemma TransferExact(lamports: map<Pubkey, nat>, from: Pubkey, to: Pubkey, amount: nat)
    ensures var r := Transfer(lamports, from, to, amount);
            && (r.Some? <==> amount <= Balance(lamports, from))
            && (r.Some? ==> Moved(lamports, r.value, from, to, amount))
  {
  }

  function NextSlot(current: RingIndex): RingIndex {
    (current + 1) % ROOT_HISTORY_SIZE
  }

  predicate IsKnown(s: PoolState, root: Field) {
    root in s.roots
  }

  /** The vault is a program address: nobody can sign for it. */
  function DepositIx(cfg: Config, s: PoolState, ix: Instruction): Result<Done, Error>
    requires ix.Deposit?
  {
    if ix.depositor == cfg.vault then Err(MissingSignature)
    else if s.nextLeafIndex >= Pow2(cfg.depth) then Err(TreeFull)
    else if ix.amount < MIN_DEPOSIT_AMOUNT then Err(DepositTooSmall)
    else if ix.newRoot == s.roots[s.currentRootIndex] then Err(InvalidRoot)
    else
      match Transfer(s.lamports, ix.depositor, cfg.vault, ix.amount)
      case None => Err(InsufficientFunds)
      case Some(lamports) =>
        var slot := NextSlot(s.currentRootIndex);
        MaxLeavesFits(cfg.depth);
        Ok(Done(
          s.(nextLeafIndex := s.nextLeafIndex + 1,
             totalDeposits := s.totalDeposits + 1,
             currentRootIndex := slot,
             roots := s.roots[slot := ix.newRoot],
             lamports := lamports),
          DepositEvent(ix.commitment, s.nextLeafIndex, ix.now, ix.newRoot)))
  }

  function PublicInputsOf(ix: Instruction): PublicInputs
    requires ix.Withdraw?
  {
    PublicInputs(ix.root, ix.nullifierHash, OnChainReduce(ix.to), Lit(ix.amount))
  }

  /** The verifier program accepts a proof for exactly the public inputs it was made for. */
  predicate Verifies(depth: nat, proof: Proof, inputs: PublicInputs) {
    proof.inputs == inputs && Accepts(depth, inputs, proof.private)
  }

  function WithdrawIx(cfg: Config, s: PoolState, ix: Instruction): Result<Done, Error>
    requires ix.Withdraw?
  {
    if ix.nullifierHash in s.records then Err(AccountAlreadyInUse)
    else if ix.verifierProgram != cfg.verifier then Err(InvalidVerifier)
    else if ix.recipient != ix.to then Err(RecipientMismatch)
    else if Balance(s.lamports, cfg.vault) < ix.amount then Err(InsufficientVaultBalance)
    else if !IsKnown(s, ix.root) then Err(InvalidRoot)
    else if !Verifies(cfg.depth, ix.proof, PublicInputsOf(ix)) then Err(InvalidProof)
    else
      match Transfer(s.lamports, cfg.vault, ix.recipient, ix.amount)
      case None => Err(InsufficientFunds)
      case Some(lamports) =>
        var record := NullifierRecord(ix.nullifierHash, ix.to, ix.amount, ix.now);
        Ok(Done(s.(records := s.records[ix.nullifierHash := record], lamports := lamports),
                WithdrawEvent(ix.nullifierHash, ix.recipient, ix.now)))
  }

  function Execute(cfg: Config, s: PoolState, ix: Instruction): Result<Done, Error> {
    if ix.Deposit? then DepositIx(cfg, s, ix) else WithdrawIx(cfg, s, ix)
  }

  /** The result an instruction reports, and the state it must leave: on an error, the old one. */
  predicate Reported(before: PoolState, after: PoolState, outcome: Result<Done, Error>,
      reported: Result<Event<Field>, Error>) {
    match outcome
    case Ok(done) => reported == Ok(done.event) && after == done.state
    case Err(e) => reported == Err(e) && after == before
  }

  class PoolProgram {
    const cfg: Config
    var authority: Pubkey
    var nextLeafIndex: u64
    var totalDeposits: nat
    var currentRootIndex: RingIndex
    const roots: array<Field>
    var records: map<Field, NullifierRecord>
    var lamports: map<Pubkey, nat>

    ghost predicate Valid()
      reads this
    {
      roots.Length == ROOT_HISTORY_SIZE
    }

    ghost function State(): PoolState
      reads this, roots
      requires Valid()
    {
      PoolState(authority, nextLeafIndex, totalDeposits, currentRootIndex, roots[..], records, lamports)
    }

    constructor (cfg: Config, lamports: map<Pubkey, nat>)
      ensures Valid() && fresh(roots)
      ensures this.cfg == cfg
      ensures State() == InitialPool(cfg.authority, lamports)
    {
      this.cfg := cfg;
      authority := cfg.authority;
      nextLeafIndex, totalDeposits, currentRootIndex := 0, 0, 0;
      records, this.lamports := map[], lamports;
      roots := new Field[ROOT_HISTORY_SIZE](_ => Lit(1));
      new;
      roots[0] := EMPTY_ROOT;
      for i := 1 to ROOT_HISTORY_SIZE
        invariant Valid() && nextLeafIndex == totalDeposits == currentRootIndex == 0
        invariant authority == cfg.authority && records == map[] && this.lamports == lamports
        invariant forall k | 0 <= k < i :: roots[k] == EMPTY_ROOT
      {
        roots[i] := EMPTY_ROOT;
      }
    }

    method IsKnownRoot(root: Field) returns (known: bool)
      requires Valid()
      ensures known <==> IsKnown(State(), root)
    {
      for i := 0 to roots.Length
        invariant root !in roots[..i]
      {
        if roots[i] == root {
          return true;
        }
      }
      assert roots[..roots.Length] == roots[..];
      return false;
    }

    method AddRoot(newRoot: Field)
      requires Valid()
      modifies this`currentRootIndex, roots
      ensures currentRootIndex == NextSlot(old(currentRootIndex))
      ensures roots[..] == old(roots[..])[currentRootIndex := newRoot]
    {
      var index := (currentRootIndex + 1) % ROOT_HISTORY_SIZE;
      currentRootIndex := index;
      roots[index] := newRoot;
    }

    method TransferLamports(from: Pubkey, to: Pubkey, amount: nat) returns (ok: bool)
      modifies this`lamports
      ensures ok <==> Transfer(old(lamports), from, to, amount).Some?
      ensures lamports == if ok then Transfer(old(lamports), from, to, amount).value else old(lamports)
    {
      ok := Balance(lamports, from) >= amount;
      if ok {
        lamports := lamports[from := Balance(lamports, from) - amount];
        lamports := lamports[to := Balance(lamports, to) + amount];
      }
    }

    method HandleDeposit(depositor: Pubkey, commitment: Field, newRoot: Field, amount: u64, now: i64)
      returns (r: Result<Event<Field>, Error>)
      requires Valid()
      modifies this, roots
      ensures Valid()
      ensures Reported(old(State()), State(), DepositIx(cfg, old(State()), Deposit(depositor, commitment, newRoot,
          amount, now)), r)
    {
      if depositor == cfg.vault { return Err(MissingSignature); }
      if !(nextLeafIndex < Pow2(cfg.depth)) { return Err(TreeFull); }
      if !(amount >= MIN_DEPOSIT_AMOUNT) { return Err(DepositTooSmall); }
      var currentRoot := roots[currentRootIndex];
      if !(newRoot != currentRoot) { return Err(InvalidRoot); }

      var paid := TransferLamports(depositor, cfg.vault, amount);
      if !paid { return Err(InsufficientFunds); }

      var leafIndex := nextLeafIndex;
      MaxLeavesFits(cfg.depth);
      nextLeafIndex := nextLeafIndex + 1;
      totalDeposits := totalDeposits + 1;
      AddRoot(newRoot);
      return Ok(DepositEvent(commitment, leafIndex, now, newRoot));
    }

    method HandleWithdraw(recipient: Pubkey, verifierProgram: Pubkey, proof: Proof,
                          nullifierHash: Field, root: Field, to: Pubkey, amount: u64, now: i64)
      returns (r: Result<Event<Field>, Error>)
      requires Valid()
      modifies this
      ensures Valid()
      ensures Reported(old(State()), State(),
                       WithdrawIx(cfg, old(State()), Withdraw(recipient, verifierProgram, proof, nullifierHash, root,
                           to, amount, now)), r)
    {
      if nullifierHash in records { return Err(AccountAlreadyInUse); }
      if verifierProgram != cfg.verifier { return Err(InvalidVerifier); }
      if !(recipient == to) { return Err(RecipientMismatch); }
      if !(Balance(lamports, cfg.vault) >= amount) { return Err(InsufficientVaultBalance); }
      var known := IsKnownRoot(root);
      if !known { return Err(InvalidRoot); }

      var recipientField := ReduceToField(to);
      var publicInputs := PublicInputs(root, nullifierHash, recipientField, Lit(amount));
      if !Verifies(cfg.depth, proof, publicInputs) { return Err(InvalidProof); }

      records := records[nullifierHash := NullifierRecord(nullifierHash, to, amount, now)];
      var paid := TransferLamports(cfg.vault, recipient, amount);
      assert paid;
      return Ok(WithdrawEvent(nullifierHash, recipient, now));
    }
  }

  // ---------- which error is reported ----------

  /** The checks of an instruction in order, each with the error it raises. */
  type Checks = seq<(bool, Error)>

  /** The error of the first check that fails. */
  function FirstFailure(checks: Checks): Option<Error> {
    if |checks| == 0 then None
    else if !checks[0].0 then Some(checks[0].1)
    else FirstFailure(checks[1..])
  }

  function DepositChecks(cfg: Config, s: PoolState, ix: Instruction): Checks
    requires ix.Deposit?
  {
    [(ix.depositor != cfg.vault, MissingSignature),
     (s.nextLeafIndex < Pow2(cfg.depth), TreeFull),
     (ix.amount >= MIN_DEPOSIT_AMOUNT, DepositTooSmall),
     (ix.newRoot != s.roots[s.currentRootIndex], InvalidRoot),
     (ix.amount <= Balance(s.lamports, ix.depositor), InsufficientFunds)]
  }

  function WithdrawChecks(cfg: Config, s: PoolState, ix: Instruction): Checks
    requires ix.Withdraw?
  {
    [(ix.nullifierHash !in s.records, AccountAlreadyInUse),
     (ix.verifierProgram == cfg.verifier, InvalidVerifier),
     (ix.recipient == ix.to, RecipientMismatch),
     (ix.amount <= Balance(s.lamports, cfg.vault), InsufficientVaultBalance),
     (ix.root in s.roots, InvalidRoot),
     (ix.proof.inputs == PublicInputsOf(ix) && Accepts(cfg.depth, PublicInputsOf(ix), ix.proof.private), InvalidProof)]
  }

  lemma {:induction false} FirstFailureUnfolds(checks: Checks, ok: bool, e: Error)
    ensures FirstFailure([(ok, e)] + checks) == if !ok then Some(e) else FirstFailure(checks)
  {
    assert ([(ok, e)] + checks)[1..] == checks;
  }

  /** An instruction fails with the error of its first failing check, and succeeds if none fails. */
  lemma {:induction false} ErrorsExact(cfg: Config, s: PoolState, ix: Instruction)
    ensures var checks := if ix.Deposit? then DepositChecks(cfg, s, ix) else WithdrawChecks(cfg, s, ix);
            match Execute(cfg, s, ix)
            case Ok(_) => FirstFailure(checks) == None
            case Err(e) => FirstFailure(checks) == Some(e)
  {
    if ix.Deposit? {
      var c := DepositChecks(cfg, s, ix);
      assert c == [c[0]] + ([c[1]] + ([c[2]] + ([c[3]] + ([c[4]] + []))));
      FirstFailureUnfolds([], c[4].0, c[4].1);
      FirstFailureUnfolds([c[4]] + [], c[3].0, c[3].1);
      FirstFailureUnfolds([c[3]] + ([c[4]] + []), c[2].0, c[2].1);
      FirstFailureUnfolds([c[2]] + ([c[3]] + ([c[4]] + [])), c[1].0, c[1].1);
      FirstFailureUnfolds([c[1]] + ([c[2]] + ([c[3]] + ([c[4]] + []))), c[0].0, c[0].1);
    } else {
      WithdrawErrorsExact(cfg, s, ix);
    }
  }

  lemma {:induction false} WithdrawErrorsExact(cfg: Config, s: PoolState, ix: Instruction)
    requires ix.Withdraw?
    ensures match WithdrawIx(cfg, s, ix)
            case Ok(_) => FirstFailure(WithdrawChecks(cfg, s, ix)) == None
            case Err(e) => FirstFailure(WithdrawChecks(cfg, s, ix)) == Some(e)
  {
    var c := WithdrawChecks(cfg, s, ix);
    assert c == [c[0]] + ([c[1]] + ([c[2]] + ([c[3]] + ([c[4]] + ([c[5]] + [])))));
    FirstFailureUnfolds([], c[5].0, c[5].1);
    FirstFailureUnfolds([c[5]] + [], c[4].0, c[4].1);
    FirstFailureUnfolds([c[4]] + ([c[5]] + []), c[3].0, c[3].1);
    FirstFailureUnfolds([c[3]] + ([c[4]] + ([c[5]] + [])), c[2].0, c[2].1);
    FirstFailureUnfolds([c[2]] + ([c[3]] + ([c[4]] + ([c[5]] + []))), c[1].0, c[1].1);
    FirstFailureUnfolds([c[1]] + ([c[2]] + ([c[3]] + ([c[4]] + ([c[5]] + [])))), c[0].0, c[0].1);
  }
}
