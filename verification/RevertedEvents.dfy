/**
 The indexer (app/backend/src/indexer.rs) does not look at the error of a transaction, so it reads
 the events of one that a later instruction reverted like any other. What one such line does.
 */
module RevertedEvents {
  import opened Wrappers
  import opened Bytes
  import opened ChainLog
  import opened Circuit
  import opened Client
  import opened CrashRecovery
  import opened Database
  import opened Events
  import opened Incremental
  import opened Indexer
  import opened LogImage
  import opened Batches
  import opened BackendSteps
  import opened Merkle
  import opened Pool
  import opened PoolRuns
  import opened Solvency
  import opened TreeStore
  import opened WholeSystem

  // ---------- one more line in the log ----------

  function WithLine<T>(lines: seq<Payload<T>>, n: nat, line: Payload<T>): seq<Payload<T>>
    requires n <= |lines|
  {
    lines[..n] + [line] + lines[n..]
  }

  function Overwritten<T>(s: seq<T>, i: nat, x: T): seq<T>
    requires i <= |s|
  {
    if i < |s| then s[i := x] else s + [x]
  }

  function LeavesWith<T>(c: seq<T>, before: nat, line: Payload<T>): seq<T>
    requires before <= |c|
  {
    if TakesLeaf(line, before) then Overwritten(c, before, line.commitment) else c
  }

  function RootsWith<T>(roots: seq<RootRow<T>>, before: nat, line: Payload<T>): seq<RootRow<T>>
    requires before <= |roots|
  {
    if TakesLeaf(line, before) then Overwritten(roots, before, RootRow(line.newRoot, line.leafIndex)) else roots
  }

  function SpentWith<T>(spent: map<T, NullifierRow>, before: map<T, NullifierRow>,
      line: Payload<T>): map<T, NullifierRow>
  {
    if line.Withdrawn? && line.nullifierHash !in before then
      spent[line.nullifierHash := NullifierRow(line.recipient, 0)]
    else spent
  }

  /** `b` says what `a` says, and in addition `line`, which came after `l` leaves and the nullifiers `before`. */
  ghost predicate SaysAlso<T>(a: seq<Payload<T>>, b: seq<Payload<T>>, l: nat, before: map<T, NullifierRow>,
      line: Payload<T>)
  {
    && l <= |Leaves(a)| == |LogRoots(a)|
    && Leaves(b) == LeavesWith(Leaves(a), l, line)
    && LogRoots(b) == RootsWith(LogRoots(a), l, line)
    && Spent(b) == SpentWith(Spent(a), before, line)
  }

  lemma {:induction false} SaysOneMore<T>(a: seq<Payload<T>>, x: Payload<T>)
    ensures Leaves(a + [x]) == Leaves(a) + if TakesLeaf(x, |Leaves(a)|) then [x.commitment] else []
    ensures LogRoots(a + [x])
         == LogRoots(a) + if TakesLeaf(x, |Leaves(a)|) then [RootRow(x.newRoot, x.leafIndex)] else []
    ensures Spent(a + [x]) == SpentWith(Spent(a), Spent(a), x)
  {
    assert (a + [x])[..|a|] == a;
  }

  lemma {:induction false} LeavesGoOn<T>(c: seq<T>, l: nat, line: Payload<T>, x: Payload<T>)
    requires l <= |c| && (x.Deposited? ==> 0 <= x.leafIndex <= |c|)
    ensures var d := LeavesWith(c, l, line);
            LeavesWith(c + if TakesLeaf(x, |c|) then [x.commitment] else [], l, line)
            == d + if TakesLeaf(x, |d|) then [x.commitment] else []
  {
  }

  lemma {:induction false} RootsGoOn<T>(roots: seq<RootRow<T>>, l: nat, line: Payload<T>, x: Payload<T>)
    requires l <= |roots| && (x.Deposited? ==> 0 <= x.leafIndex <= |roots|)
    ensures var d := RootsWith(roots, l, line);
            RootsWith(roots + if TakesLeaf(x, |roots|) then [RootRow(x.newRoot, x.leafIndex)] else [], l, line)
            == d + if TakesLeaf(x, |d|) then [RootRow(x.newRoot, x.leafIndex)] else []
  {
  }

  lemma {:induction false} SpentGoesOn<T>(spent: map<T, NullifierRow>, before: map<T, NullifierRow>,
      line: Payload<T>, x: Payload<T>)
    ensures var d := SpentWith(spent, before, line);
            SpentWith(SpentWith(spent, spent, x), before, line) == SpentWith(d, d, x)
  {
  }

  /** Both go on with the same line. */
  lemma {:induction false} BothGoOn<T>(a: seq<Payload<T>>, b: seq<Payload<T>>, x: Payload<T>, l: nat,
      before: map<T, NullifierRow>, line: Payload<T>)
    requires SaysAlso(a, b, l, before, line)
    requires x.Deposited? ==> 0 <= x.leafIndex <= |Leaves(a)|
    ensures SaysAlso(a + [x], b + [x], l, before, line)
  {
    SaysOneMore(a, x);
    SaysOneMore(b, x);
    LeavesGoOn(Leaves(a), l, line, x);
    RootsGoOn(LogRoots(a), l, line, x);
    SpentGoesOn(Spent(a), before, line, x);
  }

  lemma {:induction false} WithLineGrows<T>(lines: seq<Payload<T>>, n: nat, line: Payload<T>, k: nat)
    requires n <= k <= |lines|
    ensures k == n ==> WithLine(lines, n, line)[..k + 1] == lines[..n] + [line]
    ensures n < k ==> lines[..k] == lines[..k - 1] + [lines[k - 1]]
    ensures n < k ==> WithLine(lines, n, line)[..k + 1] == WithLine(lines, n, line)[..k] + [lines[k - 1]]
  {
  }

  lemma {:induction false} StrayStart<T>(before: seq<Payload<T>>, line: Payload<T>)
    ensures SaysAlso(before, before + [line], |Leaves(before)|, Spent(before), line)
  {
    SaysOneMore(before, line);
    RootsNumbered(before);
  }

  /**
   A further line takes effect as if it had been there alone: a deposit of the next leaf index takes
   that place for good, a new nullifier keeps this recipient, and nothing else is disturbed.
   */
  lemma {:induction false} StrayLine<T>(lines: seq<Payload<T>>, n: nat, line: Payload<T>, k: nat)
    requires WellFormed(lines) && n <= k <= |lines|
    ensures SaysAlso(lines[..k], WithLine(lines, n, line)[..k + 1], |Leaves(lines[..n])|, Spent(lines[..n]), line)
    decreases k
  {
    WithLineGrows(lines, n, line, k);
    if k == n {
      StrayStart(lines[..n], line);
    } else {
      StrayLine(lines, n, line, k - 1);
      assert LineFits(lines, k - 1);
      BothGoOn(lines[..k - 1], WithLine(lines, n, line)[..k], lines[k - 1], |Leaves(lines[..n])|, Spent(lines[..n]),
          line);
    }
  }

  /** What the log says with the line in it. */
  lemma {:induction false} StrayImage<T>(lines: seq<Payload<T>>, n: nat, line: Payload<T>)
    requires WellFormed(lines) && n <= |lines|
    ensures SaysAlso(lines, WithLine(lines, n, line), |Leaves(lines[..n])|, Spent(lines[..n]), line)
  {
    StrayLine(lines, n, line, |lines|);
    assert lines[..|lines|] == lines;
    assert WithLine(lines, n, line)[..|lines| + 1] == WithLine(lines, n, line);
  }

  lemma {:induction false} StrayFitsAt<T>(lines: seq<Payload<T>>, n: nat, line: Payload<T>, j: nat)
    requires WellFormed(lines) && n <= |lines| && j <= |lines|
    requires line.Deposited? ==> 0 <= line.leafIndex <= |Leaves(lines[..n])|
    ensures LineFits(WithLine(lines, n, line), j)
  {
    var all := WithLine(lines, n, line);
    if j <= n {
      assert all[..j] == lines[..j];
      assert j < n ==> LineFits(lines, j);
    } else {
      StrayLine(lines, n, line, j - 1);
      assert all[j] == lines[j - 1] && LineFits(lines, j - 1);
    }
  }

  /** The log stays one the indexer can follow, so everything proved about its runs still holds. */
  lemma {:induction false} StrayFits<T>(lines: seq<Payload<T>>, n: nat, line: Payload<T>)
    requires WellFormed(lines) && n <= |lines| && |Leaves(lines)| < 0x4000_0000
    requires line.Deposited? ==> 0 <= line.leafIndex <= |Leaves(lines[..n])|
    ensures WellFormed(WithLine(lines, n, line))
  {
    var all := WithLine(lines, n, line);
    StrayImage(lines, n, line);
    forall j | 0 <= j < |all| ensures LineFits(all, j) {
      StrayFitsAt(lines, n, line, j);
    }
  }

  /** It is known, or the very line that will come in its place. */
  ghost predicate Harmless<T>(lines: seq<Payload<T>>, n: nat, line: Payload<T>)
    requires n <= |lines|
  {
    match line
    case Deposited(x, leafIndex, root) =>
      var l := |Leaves(lines[..n])|;
      leafIndex == l ==> l < |Leaves(lines)| && Leaves(lines)[l] == x && RootRow(root, l) in LogRoots(lines)
    case Withdrawn(nullifierHash, recipient) =>
      nullifierHash !in Spent(lines[..n]) ==>
        nullifierHash in Spent(lines) && Spent(lines)[nullifierHash].recipient == recipient
    case Ignored => true
  }

  /** The database is the same with the line and without it exactly if the line is harmless. */
  lemma {:induction false} HarmlessExactly<T>(lines: seq<Payload<T>>, n: nat, line: Payload<T>)
    requires WellFormed(lines) && n <= |lines|
    ensures var all := WithLine(lines, n, line);
            (Leaves(all) == Leaves(lines) && LogRoots(all) == LogRoots(lines) && Spent(all) == Spent(lines))
            <==> Harmless(lines, n, line)
  {
    StrayImage(lines, n, line);
    RootsNumbered(lines);
    SpentRows(lines);
    var l := |Leaves(lines[..n])|;
    if TakesLeaf(line, l) && l < |Leaves(lines)| {
      assert LogRoots(lines)[l].leafIndex == l;
      assert Overwritten(LogRoots(lines), l, RootRow(line.newRoot, l))[l] == RootRow(line.newRoot, l);
      assert Overwritten(Leaves(lines), l, line.commitment)[l] == line.commitment;
    }
  }

  lemma {:induction false} SpentRows<T>(lines: seq<Payload<T>>)
    ensures forall nh <- Spent(lines) :: Spent(lines)[nh].amount == 0
    decreases |lines|
  {
    if |lines| > 0 { SpentRows(lines[..|lines| - 1]); }
  }

  /** In the indexer's terms: after the reverted deposit of a new leaf the real one is ignored. */
  lemma RealLeafIgnored<T>(H: Hasher<T>, depth: nat, p: Progress<T>, leafIndex: i64, x: T, root: T, y: T, root': T)
    requires leafIndex !in p.backend.db.commitments
    ensures var q := IndexLine(H, depth, p, Deposited(x, leafIndex, root));
            && leafIndex in q.backend.db.commitments && q.backend.db.commitments[leafIndex] == x
            && IndexLine(H, depth, q, Deposited(y, leafIndex, root')) == q
  {
  }

  // ---------- what it does to withdrawals ----------

  lemma {:induction false} DifferentLeafDifferentRoot(cfg: Config, c: seq<Field>, d: seq<Field>, l: nat)
    requires l < Pow2(cfg.depth) && Leaf(Poseidon(), c, l) != Leaf(Poseidon(), d, l)
    ensures RebuiltRoot(cfg, c) != RebuiltRoot(cfg, d)
  {
    PoseidonIsIdeal();
    RootsEqualExactly(Poseidon(), c, d, cfg.depth);
  }

  /** The tree holds a leaf that is not the one on chain: no withdrawal that names its root is accepted. */
  lemma {:induction false} WrongLeafNeverPaid(cfg: Config, w: World, initial: map<Pubkey, nat>, tree: Tree<Field>,
      c: seq<Field>, l: nat, ix: Instruction)
    requires Solvent(cfg, w, initial) && Stored(Poseidon(), tree, c, cfg.depth)
    requires l < |c| && l < Pow2(cfg.depth) && c[l] != EMPTY_LEAF
    requires l < |w.deposits| ==> c[l] != Commitments(w.deposits)[l]
    requires ix.Withdraw? && ix.root == GetRoot(Poseidon(), tree)
    ensures !WithdrawIx(cfg, w.pool, ix).Ok?
  {
    if WithdrawIx(cfg, w.pool, ix).Ok? {
      AcceptedRootNotEmpty(cfg.depth, PublicInputsOf(ix), ix.proof.private);
      var k := KnownRootIsRebuilt(cfg, w, initial, ix.root);
      var d := Commitments(w.deposits)[..k];
      DifferentLeafDifferentRoot(cfg, c, d, l);
    }
  }

  /** The first l of `c`, then possibly the leaf of the further line, and no more than `c` has from there. */
  ghost predicate TakenOver<T>(d: seq<T>, c: seq<T>, l: nat, x: T) {
    && l <= |c| && |d| <= Later(|c|, l + 1)
    && (forall i | 0 <= i < l && i < |d| :: d[i] == c[i])
    && (l < |d| ==> d[l] == x)
  }

  lemma {:induction false} TakenOverAt<T>(c: seq<T>, all: seq<T>, l: nat, x: T)
    requires l <= |c| && c <= all
    ensures TakenOver(Overwritten(c, l, x), all, l, x)
  {
  }

  lemma {:induction false} BeforeStray<T>(lines: seq<Payload<T>>, n: nat, line: Payload<T>, k: nat)
    requires k <= n <= |lines| && line.Deposited?
    ensures TakenOver(Leaves(WithLine(lines, n, line)[..k]), Leaves(lines[..|lines|]), |Leaves(lines[..n])|,
        line.commitment)
  {
    assert WithLine(lines, n, line)[..k] == lines[..k];
    LeavesGrow(lines, k, n);
    LeavesGrow(lines, n, |lines|);
  }

  /** The leaves of the first k lines when a further line for the next leaf stands at position n. */
  lemma {:induction false} PrefixWithStray<T>(lines: seq<Payload<T>>, n: nat, line: Payload<T>, k: nat)
    requires WellFormed(lines) && n <= |lines| && TakesLeaf(line, |Leaves(lines[..n])|) && k <= |lines| + 1
    ensures TakenOver(Leaves(WithLine(lines, n, line)[..k]), Leaves(lines), |Leaves(lines[..n])|, line.commitment)
  {
    assert lines[..|lines|] == lines;
    if k <= n {
      BeforeStray(lines, n, line, k);
    } else {
      StrayLine(lines, n, line, k - 1);
      LeavesGrow(lines, k - 1, |lines|);
      TakenOverAt(Leaves(lines[..k - 1]), Leaves(lines), |Leaves(lines[..n])|, line.commitment);
    }
  }

  /** What a node serves when the log has one more deposit line, for the leaf that comes next at position n. */
  lemma {:induction false} ServedWithStray(lines: seq<Payload<Field>>, n: nat, line: Payload<Field>,
      ledger: seq<Tx<Field>>, s: Node<Field>)
    requires WellFormed(lines) && n <= |lines| && TakesLeaf(line, |Leaves(lines[..n])|)
    requires Flatten(ledger) == WithLine(lines, n, line) && WellFormed(Flatten(ledger)) && LogSound(ledger, s)
    ensures TakenOver(Served(s), Leaves(lines), |Leaves(lines[..n])|, line.commitment)
  {
    ServedIsLog(ledger, s);
    PrefixWithStray(lines, n, line, s.upto);
  }

  /** The tree holds the first m of a list in which leaf l is not the one on chain. */
  lemma {:induction false} WithTakenLeaf(cfg: Config, w: World, initial: map<Pubkey, nat>, tree: Tree<Field>,
      served: seq<Field>, l: nat, x: Field, m: nat, note: Note, to: Pubkey, now: i64)
    requires Solvent(cfg, w, initial) && TakenOver(served, Commitments(w.deposits), l, x)
    requires x != EMPTY_LEAF && l < Pow2(cfg.depth) && (l < |w.deposits| ==> x != w.deposits[l].commitment)
    requires m <= |served| && Stored(Poseidon(), tree, served[..m], cfg.depth)
    ensures Paid(cfg, w.pool, ClientWithdrawal(cfg, tree, served, note, to, now))
            <==> m <= l && Payable(w, note, to, m) && CommitmentOf(note) in served[..m]
  {
    DepositsFit(cfg, w, initial);
    var ix := ClientWithdrawal(cfg, tree, served, note, to, now);
    if m <= l {
      assert served[..m] == Commitments(w.deposits)[..m];
      WithdrawalFromPrefix(cfg, w, initial, tree, served, m, note, to, now);
    } else if ix.Some? {
      WrongLeafNeverPaid(cfg, w, initial, tree, served[..m], l, ix.value);
    }
  }

  /**
   The ledger tells a run, plus one reverted deposit of the leaf that comes next and is not the one
   that then comes. As long as the tree stops short of that leaf, withdrawals are decided as without
   it; from then on no withdrawal the client builds is accepted, and no restart changes that.
   */
  lemma {:induction false} RevertedDepositDecides(cfg: Config, w: World, initial: map<Pubkey, nat>,
      lines: seq<Payload<Field>>, n: nat, line: Payload<Field>, ledger: seq<Tx<Field>>, s: Node<Field>, m: nat,
      note: Note, to: Pubkey, now: i64)
    requires Solvent(cfg, w, initial) && Tells(lines, w)
    requires n <= |lines| && TakesLeaf(line, |Leaves(lines[..n])|) && line.commitment != EMPTY_LEAF
    requires var l := |Leaves(lines[..n])|;
             l < Pow2(cfg.depth) && (l < |w.deposits| ==> line.commitment != w.deposits[l].commitment)
    requires Flatten(ledger) == WithLine(lines, n, line) && WellFormed(Flatten(ledger)) && LogSound(ledger, s)
    requires m <= |Served(s)| && Stored(Poseidon(), s.backend.tree, Served(s)[..m], cfg.depth)
    ensures var l := |Leaves(lines[..n])|;
            && l <= |w.deposits|
            && (Paid(cfg, w.pool, ClientWithdrawal(cfg, s.backend.tree, Served(s), note, to, now))
                <==> m <= l && Payable(w, note, to, m) && CommitmentOf(note) in Served(s)[..m])
  {
    ServedWithStray(lines, n, line, ledger, s);
    WithTakenLeaf(cfg, w, initial, s.backend.tree, Served(s), |Leaves(lines[..n])|, line.commitment, m, note, to, now);
  }
}
