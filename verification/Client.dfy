/** The client (app/frontend): the deposits and withdrawals it builds from what the backend serves. */
module Client {
  import opened Wrappers
  import opened Bytes
  import opened Merkle
  import opened Circuit
  import opened Events
  import opened FieldReduction
  import opened Pool
  import opened PoolRuns
  import opened Solvency
  import opened TreeStore
  import opened CrashRecovery
  import opened Incremental
  import opened ConcurrentProof

  datatype Note = Note(nullifier: Field, secret: Field, amount: u64)

  function CommitmentOf(note: Note): Field {
    Hash3(note.nullifier, note.secret, Lit(note.amount))
  }

  /** The first position of a commitment in the list the backend returns. */
  function FindLeaf(commitments: seq<Field>, x: Field): (r: Option<nat>)
    ensures r.None? <==> x !in commitments
    ensures r.Some? ==> r.value < |commitments| && commitments[r.value] == x && x !in commitments[..r.value]
  {
    if |commitments| == 0 then None
    else if commitments[0] == x then Some(0)
    else
      match FindLeaf(commitments[1..], x)
      case None => None
      case Some(i) =>
        assert commitments[..i + 1] == [commitments[0]] + commitments[1..][..i];
        Some(i + 1)
  }

  /** The withdrawal the frontend builds from a root and a proof for leaf `i`. */
  function WithdrawalFor(cfg: Config, root: Field, path: seq<Field>, i: nat, note: Note, to: Pubkey, now: i64)
    : Instruction
  {
    var nullifierHash := Hash1(note.nullifier);
    var inputs := PublicInputs(root, nullifierHash, FrontendReduce(to), Lit(note.amount));
    var private := Witness(note.nullifier, note.secret, path, Flags(i, cfg.depth));
    Withdraw(to, cfg.verifier, Proof(inputs, private), nullifierHash, root, to, note.amount, now)
  }

  /** The withdrawal it builds, if its commitment is served and the proof endpoint knows a root. */
  function ClientWithdrawal(cfg: Config, tree: Tree<Field>, commitments: seq<Field>, note: Note, to: Pubkey, now: i64)
    : (r: Option<Instruction>)
    ensures r.Some? ==> r.value.Withdraw?
  {
    var root := GetRoot(Poseidon(), tree);
    match FindLeaf(commitments, CommitmentOf(note))
    case None => None
    case Some(i) =>
      if root == EMPTY_ROOT then None
      else Some(WithdrawalFor(cfg, root, StoredProof(Poseidon(), tree, i, cfg.depth), i, note, to, now))
  }

  /** The client can build one exactly if its commitment is served and the proof endpoint finds a tree. */
  lemma BuildsExactly(cfg: Config, tree: Tree<Field>, commitments: seq<Field>, note: Note, to: Pubkey, now: i64)
    ensures ClientWithdrawal(cfg, tree, commitments, note, to, now).Some?
            <==> CommitmentOf(note) in commitments && tree.root.Some? && tree.root.value != EMPTY_LEAF
  {
  }

  /** There is a withdrawal, and the program accepts it. */
  predicate Paid(cfg: Config, pool: PoolState, ix: Option<Instruction>)
    requires ix.Some? ==> ix.value.Withdraw?
  {
    ix.Some? && WithdrawIx(cfg, pool, ix.value).Ok?
  }

  /** The deposit the frontend builds: the merkle service's root for one more commitment. */
  function ClientDeposit(cfg: Config, commitments: seq<Field>, note: Note, depositor: Pubkey, now: i64): Instruction {
    var commitment := CommitmentOf(note);
    Deposit(depositor, commitment, RebuiltRoot(cfg, commitments + [commitment]), note.amount, now)
  }

  // ---------- when a withdrawal is accepted ----------

  /** The note is unspent, the root after n deposits is in the window, both sides reduce the key alike. */
  ghost predicate Payable(w: World, note: Note, to: Pubkey, n: nat)
    requires n <= |w.deposits|
  {
    && Hash1(note.nullifier) !in w.pool.records
    && |w.deposits| - n <= 9
    && Value(to) < FRONTEND_MODULUS
  }

  /** Both sides must reduce the recipient to the same bytes, and the path must lead to the root. */
  lemma {:induction false} VerifiesExactly(cfg: Config, root: Field, path: seq<Field>, i: nat, note: Note, to: Pubkey,
      now: i64)
    requires |path| == cfg.depth
    ensures var ix := WithdrawalFor(cfg, root, path, i, note, to, now);
            Verifies(cfg.depth, ix.proof, PublicInputsOf(ix))
            <==> && Value(to) < FRONTEND_MODULUS
                 && Fold(Poseidon(), CommitmentOf(note), path, Flags(i, cfg.depth)) == root
  {
    ReducersAgree(to);
  }

  /** A real leaf does not verify at a position past the end of the list. */
  lemma {:induction false} PastEndFails(c: seq<Field>, note: Note, i: nat, path: seq<Field>)
    requires |c| <= i < Pow2(|path|)
    ensures Fold(Poseidon(), CommitmentOf(note), path, Flags(i, |path|)) != Root(Poseidon(), c, |path|)
  {
    PoseidonIsIdeal();
    FoldExact(Poseidon(), c, CommitmentOf(note), i, path);
  }

  /** One withdrawal against the root after n deposits: the path must lead there, and nothing else is in the way. */
  lemma {:induction false} WithdrawalForExact(cfg: Config, w: World, initial: map<Pubkey, nat>, n: nat, root: Field,
      path: seq<Field>, i: nat, note: Note, to: Pubkey, now: i64)
    requires Solvent(cfg, w, initial) && n <= |w.deposits| && |path| == cfg.depth && i < Pow2(cfg.depth)
    requires root == RebuiltRoot(cfg, Commitments(w.deposits)[..n])
    ensures WithdrawIx(cfg, w.pool, WithdrawalFor(cfg, root, path, i, note, to, now)).Ok?
            <==> && Payable(w, note, to, n)
                 && Fold(Poseidon(), CommitmentOf(note), path, Flags(i, cfg.depth)) == root
  {
    VerifiesExactly(cfg, root, path, i, note, to, now);
    WithdrawalExact(cfg, w, initial, WithdrawalFor(cfg, root, path, i, note, to, now));
    if n > 0 {
      HonestRootWindow(cfg, w, initial, n);
    } else {
      PastEndFails(Commitments(w.deposits)[..n], note, i, path);
    }
  }

  /** A commitment found in a prefix is found at the same place in the whole list. */
  lemma {:induction false} FindLeafInPrefix(c: seq<Field>, m: nat, x: Field)
    requires m <= |c|
    ensures x in c[..m] ==> FindLeaf(c, x) == FindLeaf(c[..m], x)
  {
    if x in c[..m] {
      var i, j := FindLeaf(c, x).value, FindLeaf(c[..m], x).value;
      assert c[..m][j] == c[j] && c[..m][..j] == c[..j];
      assert forall k | 0 <= k < j :: c[..j][k] == c[k];
      assert forall k | 0 <= k < i :: c[..i][k] == c[k];
    }
  }

  /** A tree with more than one leaf never has the empty root. */
  lemma {:induction false} RootIsHash(cfg: Config, c: seq<Field>)
    requires cfg.depth > 0
    ensures RebuiltRoot(cfg, c) != EMPTY_LEAF
  {
    assert RebuiltRoot(cfg, c) == Hash2(Node(Poseidon(), c, cfg.depth - 1, 0), Node(Poseidon(), c, cfg.depth - 1, 1));
  }

  lemma {:induction false} DepositsFit(cfg: Config, w: World, initial: map<Pubkey, nat>)
    requires Solvent(cfg, w, initial)
    ensures |w.deposits| <= Pow2(cfg.depth)
  {
  }

  /** The stored proof of leaf i leads to the root of a complete tree exactly if the tree has that leaf. */
  lemma {:induction false} StoredProofExact(cfg: Config, tree: Tree<Field>, c: seq<Field>, note: Note, i: nat)
    requires Stored(Poseidon(), tree, c, cfg.depth) && i < Pow2(cfg.depth)
    requires i < |c| ==> c[i] == CommitmentOf(note)
    ensures var path := StoredProof(Poseidon(), tree, i, cfg.depth);
            Fold(Poseidon(), CommitmentOf(note), path, Flags(i, cfg.depth)) == GetRoot(Poseidon(), tree) <==> i < |c|
  {
    if i < |c| {
      StoredProofVerifies(Poseidon(), tree, c, i, cfg.depth);
    } else {
      PastEndFails(c, note, i, StoredProof(Poseidon(), tree, i, cfg.depth));
    }
  }

  /** The root after n > 0 honest deposits is not the empty one. */
  lemma {:induction false} RebuiltRootNotEmpty(cfg: Config, w: World, initial: map<Pubkey, nat>, n: nat)
    requires Solvent(cfg, w, initial) && 0 < n <= |w.deposits|
    ensures RebuiltRoot(cfg, Commitments(w.deposits)[..n]) != EMPTY_ROOT
  {
    HonestRootsDistinct(cfg, w, initial, n, n);
  }

  /** The withdrawal a client makes from a store whose root is that of n deposits: its stored proof decides. */
  lemma {:induction false} StoredWithdrawalExact(cfg: Config, w: World, initial: map<Pubkey, nat>, n: nat,
      tree: Tree<Field>, served: seq<Field>, i: nat, note: Note, to: Pubkey, now: i64)
    requires Solvent(cfg, w, initial) && n <= |w.deposits| && i < Pow2(cfg.depth)
    requires GetRoot(Poseidon(), tree) == RebuiltRoot(cfg, Commitments(w.deposits)[..n])
    requires FindLeaf(served, CommitmentOf(note)) == Some(i)
    ensures var path := StoredProof(Poseidon(), tree, i, cfg.depth);
            Paid(cfg, w.pool, ClientWithdrawal(cfg, tree, served, note, to, now))
            <==> && Payable(w, note, to, n)
                 && Fold(Poseidon(), CommitmentOf(note), path, Flags(i, cfg.depth)) == GetRoot(Poseidon(), tree)
  {
    var root, path := GetRoot(Poseidon(), tree), StoredProof(Poseidon(), tree, i, cfg.depth);
    WithdrawalForExact(cfg, w, initial, n, root, path, i, note, to, now);
    if n > 0 {
      RebuiltRootNotEmpty(cfg, w, initial, n);
    } else {
      PastEndFails(Commitments(w.deposits)[..n], note, i, path);
    }
  }

  /** One withdrawal against a tree that holds exactly the first m deposits. */
  lemma {:induction false} WithdrawalFromPrefix(cfg: Config, w: World, initial: map<Pubkey, nat>, tree: Tree<Field>,
      served: seq<Field>, m: nat, note: Note, to: Pubkey, now: i64)
    requires Solvent(cfg, w, initial)
    requires m <= |served| <= Pow2(cfg.depth) && m <= |w.deposits| && served[..m] == Commitments(w.deposits)[..m]
    requires Stored(Poseidon(), tree, served[..m], cfg.depth)
    ensures Paid(cfg, w.pool, ClientWithdrawal(cfg, tree, served, note, to, now))
            <==> Payable(w, note, to, m) && CommitmentOf(note) in served[..m]
  {
    if CommitmentOf(note) in served {
      var i := FindLeaf(served, CommitmentOf(note)).value;
      FindLeafInPrefix(served, m, CommitmentOf(note));
      StoredProofExact(cfg, tree, served[..m], note, i);
      StoredWithdrawalExact(cfg, w, initial, m, tree, served, i, note, to, now);
    }
  }

  // ---------- while a leaf is being added ----------

  /** How many leaves the root counts after `k` writes of the addition of leaf m. */
  function RootCount(depth: nat, m: nat, k: nat): nat {
    if k >= depth + 2 then m + 1 else m
  }

  /** What a reader finds as the root is that of m or m + 1 deposits. */
  lemma {:induction false} RootDuringUpdate(cfg: Config, base: Tree<Field>, served: seq<Field>, m: nat, rootTime: nat)
    requires m < |served| && Stored(Poseidon(), base, served[..m], cfg.depth)
    ensures GetRoot(Poseidon(), Run(base, AddLeafWrites(Poseidon(), base, m, served[m], cfg.depth), rootTime))
         == RebuiltRoot(cfg, served[..RootCount(cfg.depth, m, rootTime)])
  {
    UpdateAt(Poseidon(), base, served, m, cfg.depth, rootTime);
  }

  /** A proof for any served leaf, each level and the root read at any moment of the addition of leaf m. */
  lemma {:induction false} ReadDecides(cfg: Config, base: Tree<Field>, served: seq<Field>, m: nat, note: Note, i: nat,
      times: seq<nat>, rootTime: nat)
    returns (level: nat)
    requires m < |served| <= Pow2(cfg.depth) && |times| == cfg.depth
    requires Stored(Poseidon(), base, served[..m], cfg.depth) && served[m] != EMPTY_LEAF
    requires i < |served| && served[i] == CommitmentOf(note)
    ensures i < m ==> level < cfg.depth && MeetAt(i, m, level)
    ensures var ws := AddLeafWrites(Poseidon(), base, m, served[m], cfg.depth);
            var path := ReadProof(Poseidon(), base, ws, i, times);
            var newRoot := rootTime >= cfg.depth + 2;
            Fold(Poseidon(), CommitmentOf(note), path, Flags(i, cfg.depth))
            == GetRoot(Poseidon(), Run(base, ws, rootTime))
            <==> i < RootCount(cfg.depth, m, rootTime) && (i < m ==> (level < times[level] <==> newRoot))
  {
    if i <= m {
      PoseidonIsIdeal();
      level := ReadDuringUpdate(Poseidon(), base, served, m, i, times, rootTime);
    } else {
      level := 0;
      var path := ReadProof(Poseidon(), base, AddLeafWrites(Poseidon(), base, m, served[m], cfg.depth), i, times);
      RootDuringUpdate(cfg, base, served, m, rootTime);
      PastEndFails(served[..RootCount(cfg.depth, m, rootTime)], note, i, path);
    }
  }

  lemma {:induction false} ServedNotEmpty(cfg: Config, w: World, initial: map<Pubkey, nat>, served: seq<Field>, m: nat)
    requires Solvent(cfg, w, initial)
    requires m < |served| <= |w.deposits| && served == Commitments(w.deposits)[..|served|]
    ensures served[m] != EMPTY_LEAF && |served| <= Pow2(cfg.depth)
  {
    NotesNotEmpty(cfg, w, |served|);
    DepositsFit(cfg, w, initial);
  }

  /** Served leaves are real and fit in the tree, and what a reader finds as the root is a root of the chain. */
  lemma {:induction false} RootIsOnChain(cfg: Config, w: World, initial: map<Pubkey, nat>, base: Tree<Field>,
      served: seq<Field>, m: nat, rootTime: nat)
    requires Solvent(cfg, w, initial)
    requires m < |served| <= |w.deposits| && served == Commitments(w.deposits)[..|served|]
    requires Stored(Poseidon(), base, served[..m], cfg.depth)
    ensures served[m] != EMPTY_LEAF && |served| <= Pow2(cfg.depth)
    ensures var n := RootCount(cfg.depth, m, rootTime);
            GetRoot(Poseidon(), Run(base, AddLeafWrites(Poseidon(), base, m, served[m], cfg.depth), rootTime))
            == RebuiltRoot(cfg, Commitments(w.deposits)[..n])
  {
    var n := RootCount(cfg.depth, m, rootTime);
    ServedNotEmpty(cfg, w, initial, served, m);
    RootDuringUpdate(cfg, base, served, m, rootTime);
    assert served[..n] == Commitments(w.deposits)[..n];
  }

  /**
   A withdrawal whose proof was read while the backend added leaf m, each level and the root at any
   moment of the update; later rows may be served already. For an older leaf one level decides: it
   must have been read on the same side of the update as the root. The new leaf needs the new root.
   */
  lemma {:induction false} WithdrawalDuringUpdate(cfg: Config, w: World, initial: map<Pubkey, nat>, base: Tree<Field>,
      served: seq<Field>, m: nat, note: Note, to: Pubkey, now: i64, times: seq<nat>, rootTime: nat)
    returns (i: nat, level: nat)
    requires Solvent(cfg, w, initial)
    requires m < |served| <= |w.deposits| && served == Commitments(w.deposits)[..|served|]
    requires Stored(Poseidon(), base, served[..m], cfg.depth)
    requires CommitmentOf(note) in served && |times| == cfg.depth
    ensures FindLeaf(served, CommitmentOf(note)) == Some(i)
    ensures i < m ==> level < cfg.depth && MeetAt(i, m, level)
    ensures var ws := AddLeafWrites(Poseidon(), base, m, served[m], cfg.depth);
            var root := GetRoot(Poseidon(), Run(base, ws, rootTime));
            var newRoot := rootTime >= cfg.depth + 2;
            var n := RootCount(cfg.depth, m, rootTime);
            var ix := WithdrawalFor(cfg, root, ReadProof(Poseidon(), base, ws, i, times), i, note, to, now);
            WithdrawIx(cfg, w.pool, ix).Ok?
            <==> Payable(w, note, to, n) && i < n && (i < m ==> (level < times[level] <==> newRoot))
  {
    i := FindLeaf(served, CommitmentOf(note)).value;
    var ws, n := AddLeafWrites(Poseidon(), base, m, served[m], cfg.depth), RootCount(cfg.depth, m, rootTime);
    var root, path := GetRoot(Poseidon(), Run(base, ws, rootTime)), ReadProof(Poseidon(), base, ws, i, times);
    RootIsOnChain(cfg, w, initial, base, served, m, rootTime);
    WithdrawalForExact(cfg, w, initial, n, root, path, i, note, to, now);
    level := ReadDecides(cfg, base, served, m, note, i, times, rootTime);
  }

  /**
   The withdrawal a client makes from a store in which k writes of the addition of leaf m were made
   and the rest never came: leaf i verifies unless k lies between the write of the level where it
   meets leaf m and the write of the root.
   */
  ghost predicate HalfWrittenVerdict(cfg: Config, w: World, tree: Tree<Field>, served: seq<Field>, m: nat, k: nat,
      i: nat, level: nat, note: Note, to: Pubkey, now: i64)
  {
    var n := RootCount(cfg.depth, m, k);
    && FindLeaf(served, CommitmentOf(note)) == Some(i)
    && (i < m ==> level < cfg.depth && MeetAt(i, m, level))
    && n <= |w.deposits|
    && (Paid(cfg, w.pool, ClientWithdrawal(cfg, tree, served, note, to, now))
        <==> Payable(w, note, to, n) && i < n && (i < m ==> k <= level || k >= cfg.depth + 2))
  }

  /** The proof the store serves while it is half written. */
  lemma {:induction false} HalfWrittenProof(cfg: Config, base: Tree<Field>, served: seq<Field>, m: nat, k: nat,
      tree: Tree<Field>, note: Note, i: nat)
    returns (level: nat)
    requires m < |served| <= Pow2(cfg.depth)
    requires Stored(Poseidon(), base, served[..m], cfg.depth) && served[m] != EMPTY_LEAF
    requires tree == Run(base, AddLeafWrites(Poseidon(), base, m, served[m], cfg.depth), k)
    requires i < |served| && served[i] == CommitmentOf(note)
    ensures i < m ==> level < cfg.depth && MeetAt(i, m, level)
    ensures var path := StoredProof(Poseidon(), tree, i, cfg.depth);
            Fold(Poseidon(), CommitmentOf(note), path, Flags(i, cfg.depth)) == GetRoot(Poseidon(), tree)
            <==> i < RootCount(cfg.depth, m, k) && (i < m ==> k <= level || k >= cfg.depth + 2)
  {
    level := ReadDecides(cfg, base, served, m, note, i, seq(cfg.depth, _ => k), k);
    ReadAllAtOnce(Poseidon(), base, AddLeafWrites(Poseidon(), base, m, served[m], cfg.depth), i, cfg.depth, k);
  }

  lemma {:induction false} WithdrawalFromHalfWritten(cfg: Config, w: World, initial: map<Pubkey, nat>,
      base: Tree<Field>, served: seq<Field>, m: nat, k: nat, tree: Tree<Field>, note: Note, to: Pubkey, now: i64)
    returns (i: nat, level: nat)
    requires Solvent(cfg, w, initial)
    requires m < |served| <= |w.deposits| && served == Commitments(w.deposits)[..|served|]
    requires Stored(Poseidon(), base, served[..m], cfg.depth)
    requires tree == Run(base, AddLeafWrites(Poseidon(), base, m, served[m], cfg.depth), k)
    requires CommitmentOf(note) in served
    ensures HalfWrittenVerdict(cfg, w, tree, served, m, k, i, level, note, to, now)
  {
    i := FindLeaf(served, CommitmentOf(note)).value;
    var n := RootCount(cfg.depth, m, k);
    RootIsOnChain(cfg, w, initial, base, served, m, k);
    StoredWithdrawalExact(cfg, w, initial, n, tree, served, i, note, to, now);
    level := HalfWrittenProof(cfg, base, served, m, k, tree, note, i);
  }

  /** What an accepted withdrawal of a client does: its amount goes from the vault to the recipient, and is recorded. */
  lemma PaidMoves(cfg: Config, pool: PoolState, tree: Tree<Field>, served: seq<Field>, note: Note, to: Pubkey, now: i64)
    requires Paid(cfg, pool, ClientWithdrawal(cfg, tree, served, note, to, now))
    ensures var ix := ClientWithdrawal(cfg, tree, served, note, to, now).value;
            var q, nh := WithdrawIx(cfg, pool, ix).value.state, Hash1(note.nullifier);
            && Moved(pool.lamports, q.lamports, cfg.vault, to, note.amount)
            && q.records == pool.records[nh := NullifierRecord(nh, to, note.amount, now)]
  {
    TransferExact(pool.lamports, cfg.vault, to, note.amount);
  }
}
