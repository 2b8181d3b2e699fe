/**
 What the program's log says, and what indexing a stretch of it does to the database and to
 the stored tree, whatever Redis does meanwhile (app/backend/src/indexer.rs).
 */
module LogImage {
  import opened Wrappers
  import opened Arithmetic
  import opened Merkle
  import opened Events
  import opened TreeStore
  import opened CrashRecovery
  import opened Incremental
  import opened RedisLoss
  import opened Database
  import opened Indexer

  // ---------- what a log says ----------

  /** The commitments in a log: the first one for each leaf index. */
  function Leaves<T>(lines: seq<Payload<T>>): seq<T> {
    if |lines| == 0 then []
    else
      var m := |lines| - 1;
      var c := Leaves(lines[..m]);
      c + if TakesLeaf(lines[m], |c|) then [lines[m].commitment] else []
  }

  /** A deposit of the next leaf index; the indexer ignores one whose index is taken. */
  predicate TakesLeaf<T>(line: Payload<T>, next: nat) {
    line.Deposited? && line.leafIndex == next
  }

  /** The roots those deposits brought, with their leaf indices. */
  function LogRoots<T>(lines: seq<Payload<T>>): seq<RootRow<T>> {
    if |lines| == 0 then []
    else
      var m := |lines| - 1;
      LogRoots(lines[..m])
      + if TakesLeaf(lines[m], |Leaves(lines[..m])|) then [RootRow(lines[m].newRoot, lines[m].leafIndex)] else []
  }

  /** The nullifiers in a log, with the first recipient of each. */
  function Spent<T>(lines: seq<Payload<T>>): map<T, NullifierRow> {
    if |lines| == 0 then map[]
    else
      var m := |lines| - 1;
      var spent := Spent(lines[..m]);
      if lines[m].Withdrawn? && lines[m].nullifierHash !in spent then
        spent[lines[m].nullifierHash := NullifierRow(lines[m].recipient, 0)]
      else spent
  }

  /**
   No line skips a leaf index. Indices and nullifiers may repeat: the indexer does not look at the
   error of a transaction, so it also reads the events of one that a later instruction reverted.
   */
  ghost predicate WellFormed<T>(lines: seq<Payload<T>>) {
    && |Leaves(lines)| <= 0x4000_0000
    && forall j | 0 <= j < |lines| :: LineFits(lines, j)
  }

  ghost predicate LineFits<T>(lines: seq<Payload<T>>, j: nat)
    requires j < |lines|
  {
    lines[j].Deposited? ==> 0 <= lines[j].leafIndex <= |Leaves(lines[..j])|
  }

  /** The database holds exactly what the log says: gap-free leaves, one root row each, one row per nullifier. */
  ghost predicate Mirrors<T>(db: Tables<T>, lines: seq<Payload<T>>) {
    db == Tables(TableOf(Leaves(lines)), LogRoots(lines), Spent(lines))
  }

  lemma Chop<T>(lines: seq<Payload<T>>, j: nat)
    requires j < |lines|
    ensures lines[..j + 1][..j] == lines[..j] && lines[..j + 1][j] == lines[j]
  {
  }

  lemma {:induction false} LeavesGrow<T>(lines: seq<Payload<T>>, j: nat, n: nat)
    requires j <= n <= |lines|
    ensures Leaves(lines[..j]) <= Leaves(lines[..n])
    ensures forall nh <- Spent(lines[..j]) :: nh in Spent(lines[..n])
    decreases n
  {
    if j < n {
      LeavesGrow(lines, j, n - 1);
      Chop(lines, n - 1);
    }
  }

  lemma {:induction false} RootsArePrefix<T>(lines: seq<Payload<T>>, j: nat, n: nat)
    requires j <= n <= |lines|
    ensures LogRoots(lines[..j]) <= LogRoots(lines[..n])
    ensures |LogRoots(lines[..j])| == |Leaves(lines[..j])|
    decreases n + j
  {
    if j < n {
      RootsArePrefix(lines, j, n - 1);
      Chop(lines, n - 1);
    } else if j > 0 {
      RootsArePrefix(lines, j - 1, n - 1);
      Chop(lines, j - 1);
    }
  }

  /** Root row i belongs to leaf i. */
  lemma {:induction false} RootsNumbered<T>(lines: seq<Payload<T>>)
    ensures |LogRoots(lines)| == |Leaves(lines)|
    ensures forall i | 0 <= i < |LogRoots(lines)| :: LogRoots(lines)[i].leafIndex == i
    decreases |lines|
  {
    if |lines| > 0 { RootsNumbered(lines[..|lines| - 1]); }
  }

  ghost predicate HasDeposit<T>(lines: seq<Payload<T>>) {
    exists i :: 0 <= i < |lines| && lines[i].Deposited?
  }

  /** Before the first leaf any deposit line brings it. */
  lemma {:induction false} FirstDeposit<T>(lines: seq<Payload<T>>, lo: nat, hi: nat)
    requires WellFormed(lines) && lo <= hi <= |lines| && |Leaves(lines[..lo])| == 0
    ensures |Leaves(lines[..hi])| > 0 <==> HasDeposit(lines[lo..hi])
    decreases hi
  {
    if lo < hi {
      var m := hi - 1;
      FirstDeposit(lines, lo, m);
      Chop(lines, m);
      assert LineFits(lines, m);
      assert lines[lo..hi] == lines[lo..m] + [lines[m]];
      assert lines[lo..hi][m - lo] == lines[m];
      if HasDeposit(lines[lo..m]) {
        var i :| 0 <= i < |lines[lo..m]| && lines[lo..m][i].Deposited?;
        assert lines[lo..hi][i].Deposited?;
      }
      if HasDeposit(lines[lo..hi]) {
        var i :| 0 <= i < |lines[lo..hi]| && lines[lo..hi][i].Deposited?;
        if i < m - lo { assert lines[lo..m][i].Deposited?; }
      }
    }
  }

  lemma TableGrows<T>(c: seq<T>, x: T)
    requires |c| < 0x8000_0000_0000_0000
    ensures TableOf(c + [x]) == TableOf(c)[|c| as i64 := x]
  {
  }

  // ---------- the database ----------

  /** A line seen before changes nothing. */
  lemma ReplayIgnored<T>(H: Hasher<T>, depth: nat, p: Progress<T>, lines: seq<Payload<T>>, n: nat, j: nat)
    requires WellFormed(lines) && j < n <= |lines|
    requires Mirrors(p.backend.db, lines[..n])
    ensures IndexLine(H, depth, p, lines[j]) == p
  {
    assert LineFits(lines, j);
    Chop(lines, j);
    LeavesGrow(lines, j + 1, n);
  }

  /** The next line is taken in, whatever happens to the tree update. */
  lemma NextLineMirrored<T>(H: Hasher<T>, depth: nat, p: Progress<T>, lines: seq<Payload<T>>, n: nat)
    requires WellFormed(lines) && n < |lines|
    requires Mirrors(p.backend.db, lines[..n])
    ensures Mirrors(IndexLine(H, depth, p, lines[n]).backend.db, lines[..n + 1])
  {
    assert LineFits(lines, n);
    Chop(lines, n);
    LeavesGrow(lines, n + 1, |lines|);
    assert lines[..|lines|] == lines;
    if lines[n].Deposited? {
      TableGrows(Leaves(lines[..n]), lines[n].commitment);
    }
  }

  function Later(a: nat, b: nat): nat {
    if a < b then b else a
  }

  /** A line that is not newer than the first unseen one. */
  lemma LineMirrored<T>(H: Hasher<T>, depth: nat, p: Progress<T>, lines: seq<Payload<T>>, n: nat, j: nat)
    requires WellFormed(lines) && j <= n <= |lines| && j < |lines|
    requires Mirrors(p.backend.db, lines[..n])
    ensures var q := IndexLine(H, depth, p, lines[j]);
            Mirrors(q.backend.db, lines[..Later(n, j + 1)]) && q.backend.cursor == p.backend.cursor
  {
    if j < n {
      ReplayIgnored(H, depth, p, lines, n, j);
    } else {
      NextLineMirrored(H, depth, p, lines, n);
    }
  }

  /** Lines lo..hi of the log, the first of them not newer than the first unseen one: no line is missed. */
  lemma {:induction false} StretchMirrored<T>(H: Hasher<T>, depth: nat, p: Progress<T>, lines: seq<Payload<T>>,
      n: nat, lo: nat, hi: nat)
    requires WellFormed(lines) && lo <= n <= |lines| && lo <= hi <= |lines|
    requires Mirrors(p.backend.db, lines[..n])
    ensures var q := IndexLines(H, depth, p, lines[lo..hi]);
            Mirrors(q.backend.db, lines[..Later(n, hi)]) && q.backend.cursor == p.backend.cursor
    decreases hi - lo
  {
    if lo < hi {
      assert lines[lo..hi][1..] == lines[lo + 1..hi];
      LineMirrored(H, depth, p, lines, n, lo);
      StretchMirrored(H, depth, IndexLine(H, depth, p, lines[lo]), lines, Later(n, lo + 1), lo + 1, hi);
    }
  }

  // ---------- the tree ----------

  /** Redis refused nothing on the way from `p` to `q`. */
  ghost predicate Untroubled<T>(p: Progress<T>, q: Progress<T>) {
    |q.redis| == |p.redis| > 0
  }

  /** The stored tree on the way from `n` lines to `n'`. */
  ghost predicate TreeFollows<T>(H: Hasher<T>, depth: nat, p: Progress<T>, c: seq<T>, q: Progress<T>, c': seq<T>) {
    && |q.redis| <= |p.redis|
    && (Awaits(p.backend.tree, c) ==> Awaits(q.backend.tree, c'))
    && (Between(H, p.backend.tree, c, depth) ==> Between(H, q.backend.tree, c', depth))
    && (Stored(H, p.backend.tree, c, depth) && Untroubled(p, q) ==> Stored(H, q.backend.tree, c', depth))
  }

  lemma FollowsOn<T>(H: Hasher<T>, depth: nat, p: Progress<T>, c: seq<T>, q: Progress<T>, c': seq<T>,
      r: Progress<T>, c'': seq<T>)
    requires TreeFollows(H, depth, p, c, q, c') && TreeFollows(H, depth, q, c', r, c'')
    ensures TreeFollows(H, depth, p, c, r, c'')
  {
  }

  /** The lost tree, no rows yet, and a connection that carries a root: leaf 0 would spoil the store. */
  ghost predicate Hazard<T>(depth: nat, p: Progress<T>, c: seq<T>) {
    p.backend.tree == EmptyStore() && |c| == 0 && Reach(p.redis) >= depth + 2
  }

  /** The next line takes the next leaf or leaves rows and tree alone. */
  lemma {:induction false} NextLineCases<T>(H: Hasher<T>, depth: nat, p: Progress<T>, lines: seq<Payload<T>>, n: nat)
    requires WellFormed(lines) && n < |lines|
    requires Mirrors(p.backend.db, lines[..n])
    ensures var c, q := Leaves(lines[..n]), IndexLine(H, depth, p, lines[n]);
            if TakesLeaf(lines[n], |c|) then
              var ws := AddLeafWrites(H, p.backend.tree, |c|, lines[n].commitment, depth);
              && Leaves(lines[..n + 1]) == c + [lines[n].commitment]
              && q.backend.tree == Run(p.backend.tree, ws, Reach(p.redis)) && q.redis == After(p.redis, |ws|)
            else Leaves(lines[..n + 1]) == c && q.backend.tree == p.backend.tree && q.redis == p.redis
  {
    assert LineFits(lines, n);
    Chop(lines, n);
    LeavesGrow(lines, n + 1, |lines|);
    assert lines[..|lines|] == lines;
  }

  /**
   The tree after the next line: still usable if it was, unless leaf 0 meets a lost store; complete
   if it was and Redis refused nothing.
   */
  lemma NextLineTree<T>(H: Hasher<T>, depth: nat, p: Progress<T>, lines: seq<Payload<T>>, n: nat)
    requires WellFormed(lines) && n < |lines|
    requires Mirrors(p.backend.db, lines[..n])
    requires TakesLeaf(lines[n], |Leaves(lines[..n])|) ==> !Hazard(depth, p, Leaves(lines[..n]))
    ensures TreeFollows(H, depth, p, Leaves(lines[..n]), IndexLine(H, depth, p, lines[n]), Leaves(lines[..n + 1]))
  {
    NextLineCases(H, depth, p, lines, n);
    if TakesLeaf(lines[n], |Leaves(lines[..n])|) {
      AddLogged(H, depth, p.backend.tree, Leaves(lines[..n]), lines[n].commitment, p.redis);
    }
  }

  lemma {:induction false} AddLogged<T>(H: Hasher<T>, depth: nat, t: Tree<T>, c: seq<T>, x: T, r: Redis)
    requires !(t == EmptyStore() && |c| == 0 && Reach(r) >= depth + 2)
    ensures var ws := AddLeafWrites(H, t, |c|, x, depth);
            var t' := Run(t, ws, Reach(r));
            && (Awaits(t, c) ==> Awaits(t', c + [x]))
            && (Between(H, t, c, depth) ==> Between(H, t', c + [x], depth))
            && (Stored(H, t, c, depth) && |After(r, |ws|)| == |r| > 0 ==> Stored(H, t', c + [x], depth))
  {
    if Between(H, t, c, depth) {
      AddBetween(H, depth, t, c, x, r);
    } else if Awaits(t, c) && |c| == 0 {
      FirstLeaf(H, x, depth, Reach(r));
    }
    if Stored(H, t, c, depth) {
      assert c[..|c|] == c;
      StoredIsBetween(H, t, c, |c|, depth);
    }
  }

  lemma {:induction false} AddBetween<T>(H: Hasher<T>, depth: nat, t: Tree<T>, c: seq<T>, x: T, r: Redis)
    requires Between(H, t, c, depth)
    ensures var ws := AddLeafWrites(H, t, |c|, x, depth);
            var t' := Run(t, ws, Reach(r));
            && Between(H, t', c + [x], depth)
            && (Stored(H, t, c, depth) && |After(r, |ws|)| == |r| > 0 ==> Stored(H, t', c + [x], depth))
  {
    BetweenGrows(H, t, c, x, depth);
    if GetSize(t) == |c| {
      AddNextLeaf(H, t, c + [x], depth, Reach(r));
      assert (c + [x])[..|c| + 1] == c + [x];
    }
  }

  /** A replayed line moves nothing; the next one may spoil a lost store. */
  lemma LineTree<T>(H: Hasher<T>, depth: nat, p: Progress<T>, lines: seq<Payload<T>>, n: nat, j: nat)
    requires WellFormed(lines) && j <= n <= |lines| && j < |lines|
    requires Mirrors(p.backend.db, lines[..n])
    requires |Leaves(lines[..j + 1])| > 0 ==> !Hazard(depth, p, Leaves(lines[..n]))
    ensures var q, n' := IndexLine(H, depth, p, lines[j]), Later(n, j + 1);
            && TreeFollows(H, depth, p, Leaves(lines[..n]), q, Leaves(lines[..n']))
            && (Hazard(depth, q, Leaves(lines[..n'])) ==> Hazard(depth, p, Leaves(lines[..n])))
  {
    if j < n {
      ReplayIgnored(H, depth, p, lines, n, j);
    } else {
      Chop(lines, n);
      assert LineFits(lines, n);
      NextLineTree(H, depth, p, lines, n);
    }
  }

  /** The tree over lines lo..hi of the log. */
  lemma {:induction false} StretchTree<T>(H: Hasher<T>, depth: nat, p: Progress<T>, lines: seq<Payload<T>>, n: nat,
      lo: nat, hi: nat)
    requires WellFormed(lines) && lo <= n <= |lines| && lo <= hi <= |lines|
    requires Mirrors(p.backend.db, lines[..n])
    requires |Leaves(lines[..hi])| > 0 ==> !Hazard(depth, p, Leaves(lines[..n]))
    ensures TreeFollows(H, depth, p, Leaves(lines[..n]), IndexLines(H, depth, p, lines[lo..hi]),
        Leaves(lines[..Later(n, hi)]))
    decreases hi - lo
  {
    if lo < hi {
      var q := IndexLine(H, depth, p, lines[lo]);
      assert lines[lo..hi][1..] == lines[lo + 1..hi];
      LeavesGrow(lines, lo + 1, hi);
      LineMirrored(H, depth, p, lines, n, lo);
      LineTree(H, depth, p, lines, n, lo);
      var n' := Later(n, lo + 1);
      StretchTree(H, depth, q, lines, n', lo + 1, hi);
      FollowsOn(H, depth, p, Leaves(lines[..n]), q, Leaves(lines[..n']),
          IndexLines(H, depth, q, lines[lo + 1..hi]), Leaves(lines[..Later(n, hi)]));
    }
  }

  // ---------- a store that is spoilt ----------

  lemma {:induction false} LinesKeepSpoilt<T>(H: Hasher<T>, depth: nat, p: Progress<T>, lines: seq<Payload<T>>)
    requires Spoilt(p.backend.tree)
    ensures Spoilt(IndexLines(H, depth, p, lines).backend.tree)
    decreases |lines|
  {
    if |lines| > 0 {
      if lines[0].Deposited? {
        AddLeafKeepsSpoilt(H, p.backend.tree, AsUsize(lines[0].leafIndex), lines[0].commitment, depth, Reach(p.redis));
      }
      LinesKeepSpoilt(H, depth, IndexLine(H, depth, p, lines[0]), lines[1..]);
    }
  }

  /** The first line of a stretch, when the stretch will bring leaf 0 to a lost store. */
  lemma HazardLine<T>(H: Hasher<T>, depth: nat, p: Progress<T>, lines: seq<Payload<T>>, n: nat, j: nat)
    requires WellFormed(lines) && j <= n <= |lines| && j < |lines|
    requires Mirrors(p.backend.db, lines[..n]) && Hazard(depth, p, Leaves(lines[..n]))
    ensures var q := IndexLine(H, depth, p, lines[j]);
            Spoilt(q.backend.tree) || Hazard(depth, q, Leaves(lines[..Later(n, j + 1)]))
  {
    if j < n {
      ReplayIgnored(H, depth, p, lines, n, j);
    } else {
      assert LineFits(lines, n);
      Chop(lines, n);
      if lines[n].Deposited? {
        FirstLeaf(H, lines[n].commitment, depth, Reach(p.redis));
      }
    }
  }

  lemma {:induction false} StretchSpoils<T>(H: Hasher<T>, depth: nat, p: Progress<T>, lines: seq<Payload<T>>, n: nat,
      lo: nat, hi: nat)
    requires WellFormed(lines) && lo <= n <= |lines| && lo <= hi <= |lines|
    requires Mirrors(p.backend.db, lines[..n]) && Hazard(depth, p, Leaves(lines[..n]))
    requires |Leaves(lines[..hi])| > 0
    ensures Spoilt(IndexLines(H, depth, p, lines[lo..hi]).backend.tree)
    decreases hi - lo
  {
    if lo == hi {
      LeavesGrow(lines, hi, n);
      assert false;
    } else {
      var q := IndexLine(H, depth, p, lines[lo]);
      assert lines[lo..hi][1..] == lines[lo + 1..hi];
      LineMirrored(H, depth, p, lines, n, lo);
      HazardLine(H, depth, p, lines, n, lo);
      if Spoilt(q.backend.tree) {
        LinesKeepSpoilt(H, depth, q, lines[lo + 1..hi]);
      } else {
        StretchSpoils(H, depth, q, lines, Later(n, lo + 1), lo + 1, hi);
      }
    }
  }

  // ---------- how much Redis a stretch needs ----------

  /** A log line costs at most one tree update of depth + 3 writes. */
  lemma {:induction false} WritesUsed<T>(H: Hasher<T>, depth: nat, p: Progress<T>, lines: seq<Payload<T>>)
    requires Head(p.redis).writes > |lines| * (depth + 3)
    ensures Untroubled(p, IndexLines(H, depth, p, lines))
    ensures Head(IndexLines(H, depth, p, lines).redis).writes + |lines| * (depth + 3) >= Head(p.redis).writes
    decreases |lines|
  {
    if |lines| > 0 {
      MulNext(|lines| - 1, depth + 3);
      LineCost(H, depth, p, lines[0]);
      WritesUsed(H, depth, IndexLine(H, depth, p, lines[0]), lines[1..]);
    }
  }

  lemma {:induction false} LineCost<T>(H: Hasher<T>, depth: nat, p: Progress<T>, line: Payload<T>)
    requires Head(p.redis).writes >= depth + 3
    ensures var q := IndexLine(H, depth, p, line);
            |q.redis| == |p.redis| && Head(q.redis).writes + depth + 3 >= Head(p.redis).writes
  {
  }
}
