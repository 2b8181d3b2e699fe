/**
 The stored tree against the Merkle tree of `Merkle.Node`, for complete operations
 and for operations stopped after any single write.
 */
module CrashRecovery {
  import opened Wrappers
  import opened Merkle
  import opened TreeStore

  ghost predicate EmptiesStored<T>(H: Hasher<T>, t: Tree<T>, depth: nat) {
    forall d: nat | d <= depth :: d in t.empties && t.empties[d] == Zero(H, d)
  }

  /** The store holds exactly the tree of `c`. */
  ghost predicate Stored<T>(H: Hasher<T>, t: Tree<T>, c: seq<T>, depth: nat) {
    && EmptiesStored(H, t, depth)
    && (forall d: nat | d <= depth :: d in t.levels && t.levels[d] == Level(H, c, d))
    && t.root == Some(Root(H, c, depth))
    && GetSize(t) == |c|
  }

  /** Level `d` is the one of the first `m` leaves of `c`, or already the one of the first m + 1. */
  ghost predicate LevelNear<T>(H: Hasher<T>, t: Tree<T>, c: seq<T>, m: nat, d: nat)
    requires m <= |c|
  {
    && d in t.levels
    && (t.levels[d] == Level(H, c[..m], d) || (m < |c| && t.levels[d] == Level(H, c[..m + 1], d)))
  }

  ghost predicate RootNear<T>(H: Hasher<T>, t: Tree<T>, c: seq<T>, m: nat, depth: nat)
    requires m <= |c|
  {
    && t.root.Some?
    && (t.root.value == Root(H, c[..m], depth) || (m < |c| && t.root.value == Root(H, c[..m + 1], depth)))
  }

  /** Between two complete trees: at most the next leaf of `c` is half written. */
  ghost predicate Between<T>(H: Hasher<T>, t: Tree<T>, c: seq<T>, depth: nat) {
    && EmptiesStored(H, t, depth)
    && GetSize(t) <= |c|
    && (forall d: nat | d <= depth :: LevelNear(H, t, c, GetSize(t), d))
    && RootNear(H, t, c, GetSize(t), depth)
  }

  /** Every state a stopped run can leave behind, `c` being the commitments in the database. */
  ghost predicate Recoverable<T>(H: Hasher<T>, t: Tree<T>, c: seq<T>, depth: nat) {
    (t.root.None? && GetSize(t) == 0) || Between(H, t, c, depth)
  }

  // ---------- one level ----------

  /** The append step on one level: an old level d + 1, or one already updated, becomes the new one. */
  lemma NextLevelIsLevel<T>(H: Hasher<T>, t: Tree<T>, c: seq<T>, x: T, level: seq<T>, idx: nat, d: nat, depth: nat)
    requires d < depth && EmptiesStored(H, t, depth)
    requires level == Level(H, c + [x], d) && idx == Ancestor(|c|, d) && idx < |level|
    requires d + 1 in t.levels
    requires t.levels[d + 1] == Level(H, c, d + 1) || t.levels[d + 1] == Level(H, c + [x], d + 1)
    ensures NextLevel(H, t, level, idx, d) == Level(H, c + [x], d + 1)
  {
    var s := Sibling(idx);
    if s >= |level| { NodePastEnd(H, c + [x], d, s); }
    assert SiblingValue(H, t, level, idx, d) == Node(H, c + [x], d, s);
    ParentOfChild(H, c + [x], d, idx);
    PatchIsLevel(H, t.levels[d + 1], c, x, d + 1, Node(H, c + [x], d + 1, idx / 2));
  }

  /** Padding an old or new level `d` and setting the entry above the new leaf gives the new level. */
  lemma {:induction false} PatchIsLevel<T>(H: Hasher<T>, before: seq<T>, c: seq<T>, x: T, d: nat, parent: T)
    requires before == Level(H, c, d) || before == Level(H, c + [x], d)
    requires parent == Node(H, c + [x], d, Ancestor(|c|, d))
    ensures Pad(before, Ancestor(|c|, d), Zero(H, d))[Ancestor(|c|, d) := parent] == Level(H, c + [x], d)
  {
    var p := Ancestor(|c|, d);
    WidthOfAppend(|c|, d);
    var patched := Pad(before, p, Zero(H, d))[p := parent];
    var goal := Level(H, c + [x], d);
    forall i: nat | i < |goal| ensures patched[i] == goal[i] {
      if i != p {
        NodeUntouched(H, c, x, d, i);
      }
    }
  }

  // ---------- add_leaf ----------

  lemma PrefixAppend<T>(c: seq<T>, m: nat)
    requires m < |c|
    ensures c[..m] + [c[m]] == c[..m + 1]
  {
  }

  /** While leaf m is being added, levels 0..d are already the new ones. */
  ghost predicate Climbing<T>(H: Hasher<T>, t: Tree<T>, c: seq<T>, m: nat, d: nat, depth: nat) {
    && Between(H, t, c, depth)
    && GetSize(t) == m < |c|
    && d <= depth
    && forall e: nat | e <= d :: e in t.levels && t.levels[e] == Level(H, c[..m + 1], e)
  }

  /** From level `d` upwards, stopped after `k` writes. */
  lemma {:induction false} PathWritesNear<T>(H: Hasher<T>, t: Tree<T>, c: seq<T>, m: nat, idx: nat, d: nat,
      depth: nat, k: nat)
    requires Climbing(H, t, c, m, d, depth)
    requires idx == Ancestor(m, d) && idx < |t.levels[d]|
    ensures var ws := PathWrites(H, t, t.levels[d], idx, d, depth, m);
            && Between(H, Run(t, ws, k), c, depth)
            && (k >= |ws| ==> Stored(H, Run(t, ws, k), c[..m + 1], depth))
    decreases depth - d
  {
    if d == depth {
      LastTwoWrites(H, t, c, m, depth, k);
    } else {
      ClimbStep(H, t, c, m, idx, d, depth);
      var w := SetLevel(d + 1, NextLevel(H, t, t.levels[d], idx, d));
      var t' := Apply(t, w);
      var rest := PathWrites(H, t', w.hashes, idx / 2, d + 1, depth, m);
      assert PathWrites(H, t, t.levels[d], idx, d, depth, m) == [w] + rest;
      RunCons(t, w, rest, k);
      PathWritesNear(H, t', c, m, idx / 2, d + 1, depth, if k == 0 then 0 else k - 1);
    }
  }

  lemma {:induction false} ClimbStep<T>(H: Hasher<T>, t: Tree<T>, c: seq<T>, m: nat, idx: nat, d: nat, depth: nat)
    requires Climbing(H, t, c, m, d, depth) && d < depth
    requires idx == Ancestor(m, d) && idx < |t.levels[d]|
    ensures Climbing(H, Apply(t, SetLevel(d + 1, NextLevel(H, t, t.levels[d], idx, d))), c, m, d + 1, depth)
  {
    PrefixAppend(c, m);
    assert LevelNear(H, t, c, m, d + 1);
    NextLevelIsLevel(H, t, c[..m], c[m], t.levels[d], idx, d, depth);
    ClimbOne(H, t, c, m, d, depth, SetLevel(d + 1, NextLevel(H, t, t.levels[d], idx, d)));
  }

  lemma ClimbOne<T>(H: Hasher<T>, t: Tree<T>, c: seq<T>, m: nat, d: nat, depth: nat, w: Write<T>)
    requires Climbing(H, t, c, m, d, depth) && d < depth
    requires w == SetLevel(d + 1, Level(H, c[..m + 1], d + 1))
    ensures Climbing(H, Apply(t, w), c, m, d + 1, depth)
  {
    var t' := Apply(t, w);
    forall e: nat | e <= depth ensures LevelNear(H, t', c, m, e) {
      assert LevelNear(H, t, c, m, e);
    }
  }

  /** The root is written before the size; between the two the store is still recoverable. */
  lemma LastTwoWrites<T>(H: Hasher<T>, t: Tree<T>, c: seq<T>, m: nat, depth: nat, k: nat)
    requires Climbing(H, t, c, m, depth, depth)
    requires |t.levels[depth]| > 0
    ensures var ws := [SetRoot(t.levels[depth][0]), SetSize(m + 1)];
            && Between(H, Run(t, ws, k), c, depth)
            && (k >= |ws| ==> Stored(H, Run(t, ws, k), c[..m + 1], depth))
  {
    var root := t.levels[depth][0];
    var t1 := Apply(t, SetRoot(root));
    var t2 := Apply(t1, SetSize(m + 1));
    RunCons(t, SetRoot(root), [SetSize(m + 1)], k);
    RunCons(t1, SetSize(m + 1), [], if k == 0 then 0 else k - 1);
    forall e: nat | e <= depth ensures LevelNear(H, t1, c, m, e) && LevelNear(H, t2, c, m + 1, e) {
      assert LevelNear(H, t, c, m, e);
    }
  }

  /**
   Adding the next leaf of `c`, stopped after `k` writes, from a complete tree or from one
   in which an earlier attempt at the same leaf was stopped.
   */
  lemma {:induction false} AddNextLeaf<T>(H: Hasher<T>, t: Tree<T>, c: seq<T>, depth: nat, k: nat)
    requires Between(H, t, c, depth) && GetSize(t) < |c|
    ensures var ws := AddLeafWrites(H, t, GetSize(t), c[GetSize(t)], depth);
            && |ws| == depth + 3
            && Between(H, Run(t, ws, k), c, depth)
            && (k >= |ws| ==> Stored(H, Run(t, ws, k), c[..GetSize(t) + 1], depth))
  {
    var m := GetSize(t);
    var c' := c[..m + 1];
    var w := SetLevel(0, NewLevel0(H, t, m, c[m]));
    var t' := Apply(t, w);
    PrefixAppend(c, m);
    assert LevelNear(H, t, c, m, 0);
    PatchIsLevel(H, t.levels[0], c[..m], c[m], 0, c[m]);
    forall e: nat | e <= depth ensures LevelNear(H, t', c, m, e) {
      assert LevelNear(H, t, c, m, e);
    }
    assert Climbing(H, t', c, m, 0, depth);
    PathWritesNear(H, t', c, m, m, 0, depth, if k == 0 then 0 else k - 1);
    RunCons(t, w, PathWrites(H, t', w.hashes, m, 0, depth, m), k);
  }

  /** A complete tree is between. */
  lemma StoredIsBetween<T>(H: Hasher<T>, t: Tree<T>, c: seq<T>, m: nat, depth: nat)
    requires m <= |c| && Stored(H, t, c[..m], depth)
    ensures Between(H, t, c, depth)
  {
    forall d: nat | d <= depth ensures LevelNear(H, t, c, m, d) {}
  }

  /** With every leaf of `c` counted nothing can be half written. */
  lemma BetweenAtEnd<T>(H: Hasher<T>, t: Tree<T>, c: seq<T>, depth: nat)
    requires Between(H, t, c, depth) && GetSize(t) == |c|
    ensures Stored(H, t, c, depth)
  {
    assert c[..|c|] == c;
    forall d: nat | d <= depth ensures d in t.levels && t.levels[d] == Level(H, c, d) {
      assert LevelNear(H, t, c, |c|, d);
    }
  }

  /** A row appended to the database leaves the tree recoverable. */
  lemma BetweenGrows<T>(H: Hasher<T>, t: Tree<T>, c: seq<T>, x: T, depth: nat)
    requires Between(H, t, c, depth)
    ensures Between(H, t, c + [x], depth)
  {
    var m := GetSize(t);
    assert (c + [x])[..m] == c[..m];
    if m < |c| { assert (c + [x])[..m + 1] == c[..m + 1]; }
    forall d: nat | d <= depth ensures LevelNear(H, t, c + [x], m, d) {
      assert LevelNear(H, t, c, m, d);
    }
  }

  // ---------- init_empty_tree ----------

  /** Levels 0..d-1 are written, the root is not. */
  ghost predicate Initialising<T>(H: Hasher<T>, t: Tree<T>, d: nat) {
    && t.root.None? && GetSize(t) == 0
    && forall e: nat | e < d :: && e in t.empties && t.empties[e] == Zero(H, e)
                                && e in t.levels && t.levels[e] == [Zero(H, e)]
  }

  lemma {:induction false} LevelOfEmpty<T>(H: Hasher<T>, d: nat)
    ensures Level(H, [], d) == [Zero(H, d)]
  {
    WidthOfEmpty(d);
    NodePastEnd(H, [], d, 0);
  }

  lemma {:induction false} InitialisedIsStored<T>(H: Hasher<T>, t: Tree<T>, t1: Tree<T>, depth: nat, c: seq<T>)
    requires Initialising(H, t, depth + 1)
    requires t1.levels == t.levels && t1.empties == t.empties
    requires t1.root == Some(Zero(H, depth)) && GetSize(t1) == 0
    ensures Stored(H, t1, [], depth) && Between(H, t1, c, depth)
  {
    forall d: nat | d <= depth ensures t.levels[d] == Level(H, [], d) {
      LevelOfEmpty(H, d);
    }
    LevelOfEmpty(H, depth);
    assert Root(H, [], depth) == Level(H, [], depth)[0];
    assert c[..0] == [];
    StoredIsBetween(H, t1, c, 0, depth);
  }

  /** The root and the size, after all levels. */
  lemma {:induction false} InitEndNear<T>(H: Hasher<T>, t: Tree<T>, depth: nat, c: seq<T>, k: nat)
    requires Initialising(H, t, depth + 1)
    ensures var ws := [SetRoot(Zero(H, depth)), SetSize(0)];
            && Recoverable(H, Run(t, ws, k), c, depth)
            && (k >= |ws| ==> Stored(H, Run(t, ws, k), [], depth))
  {
    var z := Zero(H, depth);
    var t1 := Apply(t, SetRoot(z));
    RunTwo(t, SetRoot(z), SetSize(0), [], k);
    assert [SetRoot(z), SetSize(0)] + [] == [SetRoot(z), SetSize(0)];
    InitialisedIsStored(H, t, t1, depth, c);
    InitialisedIsStored(H, t, Apply(t1, SetSize(0)), depth, c);
  }

  lemma {:induction false} InitFromNear<T>(H: Hasher<T>, t: Tree<T>, d: nat, depth: nat, c: seq<T>, k: nat)
    requires 0 < d <= depth + 1 && Initialising(H, t, d)
    ensures var ws := InitFrom(H, d, Zero(H, d - 1), depth);
            && Recoverable(H, Run(t, ws, k), c, depth)
            && (k >= |ws| ==> Stored(H, Run(t, ws, k), [], depth))
    decreases depth + 1 - d
  {
    if d == depth + 1 {
      InitEndNear(H, t, depth, c, k);
    } else {
      var z := Zero(H, d - 1);
      var next := H.hash(z, z);
      var t2 := Apply(Apply(t, SetEmpty(d, next)), SetLevel(d, [next]));
      RunTwo(t, SetEmpty(d, next), SetLevel(d, [next]), InitFrom(H, d + 1, next, depth), k);
      InitFromNear(H, t2, d + 1, depth, c, if k < 2 then 0 else k - 2);
    }
  }

  /** Initialisation from any store without a root, stopped after `k` writes. */
  lemma {:induction false} InitNear<T>(H: Hasher<T>, t: Tree<T>, depth: nat, c: seq<T>, k: nat)
    requires t.root.None? && GetSize(t) == 0
    ensures var ws := InitWrites(H, depth);
            && Recoverable(H, Run(t, ws, k), c, depth)
            && (k >= |ws| ==> Stored(H, Run(t, ws, k), [], depth))
  {
    var w0, w1 := SetEmpty(0, H.empty), SetLevel(0, [H.empty]);
    var t2 := Apply(Apply(t, w0), w1);
    RunTwo(t, w0, w1, InitFrom(H, 1, H.empty, depth), k);
    assert Initialising(H, t2, 1);
    InitFromNear(H, t2, 1, depth, c, if k < 2 then 0 else k - 2);
  }

  lemma {:induction false} RunTwo<T>(t: Tree<T>, w0: Write<T>, w1: Write<T>, rest: seq<Write<T>>, k: nat)
    ensures Run(t, [w0, w1] + rest, k)
         == if k == 0 then t else if k == 1 then Apply(t, w0) else Run(Apply(Apply(t, w0), w1), rest, k - 2)
  {
    assert [w0, w1] + rest == [w0] + ([w1] + rest);
    RunCons(t, w0, [w1] + rest, k);
    if k > 0 { RunCons(Apply(t, w0), w1, rest, k - 1); }
  }

  /** Write i of initialisation: level by level the empty hash, then the level, and at the end root and size. */
  function InitWrite<T>(H: Hasher<T>, depth: nat, i: nat): Write<T> {
    if i == 2 * depth + 2 then SetRoot(Zero(H, depth))
    else if i > 2 * depth + 2 then SetSize(0)
    else if i % 2 == 0 then SetEmpty(i / 2, Zero(H, i / 2))
    else SetLevel(i / 2, [Zero(H, i / 2)])
  }

  lemma {:induction false} InitFromExact<T>(H: Hasher<T>, d: nat, depth: nat)
    requires 0 < d <= depth + 1
    ensures var ws := InitFrom(H, d, Zero(H, d - 1), depth);
            && |ws| == 2 * (depth + 1 - d) + 2
            && forall i | 0 <= i < |ws| :: ws[i] == InitWrite(H, depth, 2 * d + i)
    decreases depth + 1 - d
  {
    if d <= depth {
      InitFromExact(H, d + 1, depth);
    }
  }

  /** The order of all writes of initialisation. */
  lemma {:induction false} InitWritesExact<T>(H: Hasher<T>, depth: nat)
    ensures |InitWrites(H, depth)| == 2 * depth + 4
    ensures forall i | 0 <= i < 2 * depth + 4 :: InitWrites(H, depth)[i] == InitWrite(H, depth, i)
  {
    InitFromExact(H, 1, depth);
  }

  // ---------- startup ----------

  /** The rows the database returns for the gap-free list `c`. */
  ghost predicate RowsOf<T>(rows: seq<Row<T>>, c: seq<T>) {
    && |rows| == |c|
    && forall i | 0 <= i < |c| :: rows[i].leafIndex == i && rows[i].commitment == c[i]
  }

  lemma {:induction false} SyncNear<T>(H: Hasher<T>, t: Tree<T>, c: seq<T>, rows: seq<Row<T>>, depth: nat, k: nat)
    requires RowsOf(rows, c) && Between(H, t, c, depth)
    ensures var ws := SyncWrites(H, t, rows, GetSize(t), depth);
            && Between(H, Run(t, ws, k), c, depth)
            && (k >= |ws| ==> Stored(H, Run(t, ws, k), c, depth))
    decreases |c| - GetSize(t)
  {
    var m := GetSize(t);
    if m == |c| {
      BetweenAtEnd(H, t, c, depth);
    } else {
      var ws := AddLeafWrites(H, t, m, c[m], depth);
      AddNextLeaf(H, t, c, depth, k);
      AddNextLeaf(H, t, c, depth, |ws|);
      var t1 := Finish(t, ws);
      RunPastEnd(t, ws, if k >= |ws| then k else |ws|);
      var rest := SyncWrites(H, t1, rows, m + 1, depth);
      RunConcat(t, ws, rest, k);
      SyncNear(H, t1, c, rows, depth, if k >= |ws| then k - |ws| else 0);
    }
  }

  /**
   Crash recovery. `t` is whatever a stopped run left behind; `c` are the commitments in the
   database. Startup stopped after any `k` of its own writes is recoverable again, and startup
   that completes rebuilds exactly the tree of all of `c`.
   */
  lemma {:induction false} StartupRecovers<T>(H: Hasher<T>, t: Tree<T>, c: seq<T>, rows: seq<Row<T>>, depth: nat,
      k: nat)
    requires RowsOf(rows, c) && Recoverable(H, t, c, depth)
    ensures var ws := StartupWrites(H, t, rows, depth);
            && Recoverable(H, Run(t, ws, k), c, depth)
            && (k >= |ws| ==> Stored(H, Run(t, ws, k), c, depth))
  {
    var init := StartupInit(H, t, depth);
    var t1 := Finish(t, init);
    if |init| > 0 {
      InitNear(H, t, depth, c, k);
      InitNear(H, t, depth, c, |init|);
      assert c[..0] == [];
      StoredIsBetween(H, t1, c, 0, depth);
    }
    var rest := SyncWrites(H, t1, rows, GetSize(t1), depth);
    RunConcat(t, init, rest, k);
    SyncNear(H, t1, c, rows, depth, if k >= |init| then k - |init| else 0);
    RunPastEnd(t, init, if k >= |init| then k else |init|);
  }
}
