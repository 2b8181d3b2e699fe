/**
 What the tree of a running backend can be. A failed `add_leaf` is only logged and not tried again
 before the next start (app/backend/src/indexer.rs), so a half-written tree stays.
 */
module HalfWritten {
  import opened Wrappers
  import opened Merkle
  import opened Events
  import opened TreeStore
  import opened CrashRecovery
  import opened Incremental
  import opened RedisLoss
  import opened Database
  import opened Indexer
  import opened LogImage
  import opened Batches
  import opened BackendSteps
  import opened IndexerRuns

  /** The complete tree `base` of the first m of `c`, with k writes of the addition of leaf m, if there is one. */
  ghost predicate Half<T>(H: Hasher<T>, t: Tree<T>, c: seq<T>, depth: nat, base: Tree<T>, m: nat, k: nat) {
    && m <= |c|
    && Stored(H, base, c[..m], depth)
    && t == if m < |c| then Run(base, AddLeafWrites(H, base, m, c[m], depth), k) else base
  }

  ghost predicate Traced<T(!new)>(H: Hasher<T>, t: Tree<T>, c: seq<T>, depth: nat) {
    exists base: Tree<T>, m: nat, k: nat :: Half(H, t, c, depth, base, m, k)
  }

  lemma CompleteIsTraced<T(!new)>(H: Hasher<T>, t: Tree<T>, c: seq<T>, depth: nat)
    requires Stored(H, t, c, depth)
    ensures Traced(H, t, c, depth)
  {
    assert c[..|c|] == c;
    assert Half(H, t, c, depth, t, |c|, 0);
  }

  // ---------- one line ----------

  /** The next row: from a complete tree its addition starts; a half-written tree is left alone. */
  lemma {:induction false} AddTraced<T(!new)>(H: Hasher<T>, t: Tree<T>, c: seq<T>, x: T, depth: nat, j: nat)
    requires Between(H, t, c, depth) && Traced(H, t, c, depth)
    ensures Traced(H, Run(t, AddLeafWrites(H, t, |c|, x, depth), j), c + [x], depth)
  {
    var c' := c + [x];
    if GetSize(t) == |c| {
      BetweenAtEnd(H, t, c, depth);
      assert c'[..|c|] == c;
      assert Half(H, Run(t, AddLeafWrites(H, t, |c|, x, depth), j), c', depth, t, |c|, j);
    } else {
      var base: Tree<T>, m: nat, k: nat :| Half(H, t, c, depth, base, m, k);
      assert c[..|c|] == c;
      assert m < |c|;
      assert c'[..m] == c[..m] && c'[m] == c[m];
      assert Half(H, t, c', depth, base, m, k);
    }
  }

  /** A line that takes the next leaf, or leaves rows and tree alone. */
  lemma {:induction false} StepTraced<T(!new)>(H: Hasher<T>, depth: nat, t: Tree<T>, c: seq<T>, line: Payload<T>,
      j: nat, t': Tree<T>, c': seq<T>)
    requires Between(H, t, c, depth) && Traced(H, t, c, depth)
    requires if TakesLeaf(line, |c|) then
               t' == Run(t, AddLeafWrites(H, t, |c|, line.commitment, depth), j) && c' == c + [line.commitment]
             else t' == t && c' == c
    ensures Traced(H, t', c', depth)
  {
    if TakesLeaf(line, |c|) { AddTraced(H, t, c, line.commitment, depth, j); }
  }

  lemma {:induction false} LineTraced<T(!new)>(H: Hasher<T>, depth: nat, p: Progress<T>, lines: seq<Payload<T>>,
      n: nat, j: nat, t': Tree<T>, c': seq<T>)
    requires WellFormed(lines) && j <= n <= |lines| && j < |lines|
    requires Mirrors(p.backend.db, lines[..n])
    requires Between(H, p.backend.tree, Leaves(lines[..n]), depth)
    requires Traced(H, p.backend.tree, Leaves(lines[..n]), depth)
    requires t' == IndexLine(H, depth, p, lines[j]).backend.tree && c' == Leaves(lines[..Later(n, j + 1)])
    ensures Traced(H, t', c', depth)
  {
    if j < n {
      ReplayIgnored(H, depth, p, lines, n, j);
    } else {
      NextLineCases(H, depth, p, lines, n);
      StepTraced(H, depth, p.backend.tree, Leaves(lines[..n]), lines[n], Reach(p.redis), t', c');
    }
  }

  lemma {:induction false} StretchTraced<T(!new)>(H: Hasher<T>, depth: nat, p: Progress<T>, lines: seq<Payload<T>>,
      n: nat, lo: nat, hi: nat)
    requires WellFormed(lines) && lo <= n <= |lines| && lo <= hi <= |lines|
    requires Mirrors(p.backend.db, lines[..n])
    requires Between(H, p.backend.tree, Leaves(lines[..n]), depth)
    requires Traced(H, p.backend.tree, Leaves(lines[..n]), depth)
    ensures Traced(H, IndexLines(H, depth, p, lines[lo..hi]).backend.tree, Leaves(lines[..Later(n, hi)]), depth)
    decreases hi - lo
  {
    if lo < hi {
      var q, n' := IndexLine(H, depth, p, lines[lo]), Later(n, lo + 1);
      assert lines[lo..hi][1..] == lines[lo + 1..hi];
      assert 0 in p.backend.tree.empties;
      LineMirrored(H, depth, p, lines, n, lo);
      LineTree(H, depth, p, lines, n, lo);
      LineTraced(H, depth, p, lines, n, lo, q.backend.tree, Leaves(lines[..n']));
      StretchTraced(H, depth, q, lines, n', lo + 1, hi);
    }
  }

  // ---------- runs ----------

  /** A running node has a tree that some complete tree and one unfinished addition explain, or no root. */
  ghost predicate Explained<T(!new)>(H: Hasher<T>, depth: nat, ledger: seq<Tx<T>>, s: Node<T>)
    requires s.upto <= |Flatten(ledger)|
  {
    s.up && s.backend.tree.root.Some? ==> Traced(H, s.backend.tree, RowsHeld(ledger, s), depth)
  }

  lemma {:induction false} TickExplained<T(!new)>(H: Hasher<T>, depth: nat, limit: nat, ledger: seq<Tx<T>>, s: Node<T>,
      a: Action)
    requires WellFormed(Flatten(ledger)) && NodeSound(H, depth, ledger, s) && Explained(H, depth, ledger, s)
    requires Ticks(ledger, s, a) && KeepsUp(limit, ledger, s, a) && !Spoils(depth, limit, ledger, s, a)
    ensures var s' := Act(H, depth, limit, ledger, s, a);
            LogSound(ledger, s') && Explained(H, depth, ledger, s')
  {
    TickIsSound(H, depth, limit, ledger, s, a);
    if s.backend.tree.root.Some? {
      var lo, hi, p, moved := TickEffect(H, depth, limit, ledger, s, a);
      StretchTraced(H, depth, Progress(s.backend, a.redis), Flatten(ledger), s.upto, lo, hi);
    }
  }

  lemma {:induction false} ActExplained<T(!new)>(H: Hasher<T>, depth: nat, limit: nat, ledger: seq<Tx<T>>, s: Node<T>,
      a: Action)
    requires WellFormed(Flatten(ledger)) && NodeSound(H, depth, ledger, s) && Explained(H, depth, ledger, s)
    requires KeepsUp(limit, ledger, s, a) && !Spoils(depth, limit, ledger, s, a)
    ensures var s' := Act(H, depth, limit, ledger, s, a);
            LogSound(ledger, s') && Explained(H, depth, ledger, s')
  {
    ActKeepsLog(H, depth, limit, ledger, s, a);
    if Ticks(ledger, s, a) {
      TickExplained(H, depth, limit, ledger, s, a);
    } else if a.Restart? {
      RestartIsSound(H, depth, limit, ledger, s, a);
      var s' := Act(H, depth, limit, ledger, s, a);
      if s'.up { CompleteIsTraced(H, s'.backend.tree, RowsHeld(ledger, s'), depth); }
    }
  }

  /** Over every schedule that keeps up and does not end spoilt. */
  lemma {:induction false} RunExplained<T(!new)>(H: Hasher<T>, depth: nat, limit: nat, ledger: seq<Tx<T>>, s: Node<T>,
      spoilt: bool, actions: seq<Action>)
    requires WellFormed(Flatten(ledger)) && LogSound(ledger, s)
    requires if spoilt then Spoilt(s.backend.tree)
             else NodeSound(H, depth, ledger, s) && Explained(H, depth, ledger, s)
    requires AllKeepUp(H, depth, limit, ledger, s, actions)
    requires !EndsSpoilt(H, depth, limit, ledger, s, spoilt, actions)
    ensures var e := ActAll(H, depth, limit, ledger, s, actions);
            LogSound(ledger, e) && Explained(H, depth, ledger, e)
    decreases |actions|
  {
    if |actions| > 0 {
      var a := actions[0];
      var now := !a.RedisLost? && (spoilt || Spoils(depth, limit, ledger, s, a));
      ActKeepsLog(H, depth, limit, ledger, s, a);
      if !spoilt {
        ActIsSound(H, depth, limit, ledger, s, a);
        if !now { ActExplained(H, depth, limit, ledger, s, a); }
      } else if !a.RedisLost? {
        SpoiltForGood(H, depth, limit, ledger, s, a);
      }
      RunExplained(H, depth, limit, ledger, Act(H, depth, limit, ledger, s, a), now, actions[1..]);
    }
  }
}
