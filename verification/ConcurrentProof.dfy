/**
 A proof read (`get_proof` in app/backend/src/tree.rs) while `add_leaf` is writing: every level is
 read at its own moment, and so is the root. Whether the result verifies is decided by one level.
 */
module ConcurrentProof {
  import opened Wrappers
  import opened Merkle
  import opened TreeStore
  import opened CrashRecovery
  import opened Incremental

  // ---------- the store at every moment of an update ----------

  /** The leaves a level shows when leaf m of `c` is being added. */
  function Shown<T>(c: seq<T>, m: nat, isNew: bool): seq<T>
    requires m < |c|
  {
    if isNew then c[..m + 1] else c[..m]
  }

  /** Levels below `d` show the new leaf, the others do not; the root does if `newRoot`. */
  ghost predicate Updated<T>(H: Hasher<T>, t: Tree<T>, c: seq<T>, m: nat, depth: nat, d: nat, newRoot: bool)
    requires m < |c|
  {
    && EmptiesStored(H, t, depth)
    && (forall e: nat | e <= depth :: e in t.levels && t.levels[e] == Level(H, Shown(c, m, e < d), e))
    && t.root == Some(Root(H, Shown(c, m, newRoot), depth))
  }

  /** The writes from level `e` upwards that turn the tree of all but the last leaf into the tree of `c`. */
  function LevelWrites<T>(H: Hasher<T>, c: seq<T>, e: nat, depth: nat): seq<Write<T>>
    requires e <= depth + 1
    decreases depth + 1 - e
  {
    if e > depth then [SetRoot(Root(H, c, depth)), SetSize(|c|)]
    else [SetLevel(e, Level(H, c, e))] + LevelWrites(H, c, e + 1, depth)
  }

  /** The levels above `d` are still those of `c`. */
  ghost predicate OldAbove<T>(H: Hasher<T>, t: Tree<T>, c: seq<T>, d: nat, depth: nat) {
    EmptiesStored(H, t, depth) && forall e: nat | d < e <= depth :: e in t.levels && t.levels[e] == Level(H, c, e)
  }

  lemma {:induction false} OneLevelUp<T>(H: Hasher<T>, t: Tree<T>, c: seq<T>, x: T, level: seq<T>, idx: nat, d: nat,
      depth: nat)
    requires d < depth && OldAbove(H, t, c, d, depth)
    requires level == Level(H, c + [x], d) && idx == Ancestor(|c|, d) < |level|
    ensures var next := NextLevel(H, t, level, idx, d);
            && next == Level(H, c + [x], d + 1) && idx / 2 == Ancestor(|c|, d + 1) < |next|
            && OldAbove(H, Apply(t, SetLevel(d + 1, next)), c, d + 1, depth)
  {
    NextLevelIsLevel(H, t, c, x, level, idx, d, depth);
  }

  /** If the writes above level d + 1 are those levels, so are the ones above level d. */
  lemma {:induction false} PathUnfolds<T>(H: Hasher<T>, t: Tree<T>, c: seq<T>, level: seq<T>, idx: nat, d: nat,
      depth: nat, size: nat)
    requires idx < |level| && d < depth
    requires NextLevel(H, t, level, idx, d) == Level(H, c, d + 1)
    requires var w := SetLevel(d + 1, NextLevel(H, t, level, idx, d));
             PathWrites(H, Apply(t, w), w.hashes, idx / 2, d + 1, depth, size) == LevelWrites(H, c, d + 2, depth)
    ensures PathWrites(H, t, level, idx, d, depth, size) == LevelWrites(H, c, d + 1, depth)
  {
  }

  lemma {:induction false} PathIsLevels<T>(H: Hasher<T>, t: Tree<T>, c: seq<T>, x: T, level: seq<T>, idx: nat, d: nat,
      depth: nat)
    requires d <= depth && OldAbove(H, t, c, d, depth)
    requires level == Level(H, c + [x], d) && idx == Ancestor(|c|, d) < |level|
    ensures PathWrites(H, t, level, idx, d, depth, |c|) == LevelWrites(H, c + [x], d + 1, depth)
    decreases depth - d
  {
    if d < depth {
      var next := NextLevel(H, t, level, idx, d);
      OneLevelUp(H, t, c, x, level, idx, d, depth);
      PathIsLevels(H, Apply(t, SetLevel(d + 1, next)), c, x, next, idx / 2, d + 1, depth);
      PathUnfolds(H, t, c + [x], level, idx, d, depth, |c|);
    }
  }

  /** The first write, on a complete tree. */
  lemma {:induction false} LeafWritten<T>(H: Hasher<T>, t: Tree<T>, c: seq<T>, x: T, depth: nat)
    requires Stored(H, t, c, depth)
    ensures var level := NewLevel0(H, t, |c|, x);
            level == Level(H, c + [x], 0) && OldAbove(H, Apply(t, SetLevel(0, level)), c, 0, depth)
  {
    PatchIsLevel(H, t.levels[0], c, x, 0, x);
  }

  lemma {:induction false} PathAboveLeaf<T>(H: Hasher<T>, t: Tree<T>, c: seq<T>, x: T, level: seq<T>, depth: nat)
    requires level == Level(H, c + [x], 0) && OldAbove(H, Apply(t, SetLevel(0, level)), c, 0, depth)
    requires |c| < |level|
    ensures PathWrites(H, Apply(t, SetLevel(0, level)), level, |c|, 0, depth, |c|) == LevelWrites(H, c + [x], 1, depth)
  {
    PathIsLevels(H, Apply(t, SetLevel(0, level)), c, x, level, |c|, 0, depth);
  }

  lemma {:induction false} LeafUnfolds<T>(H: Hasher<T>, t: Tree<T>, c: seq<T>, leafIndex: nat, x: T, depth: nat)
    requires leafIndex == GetSize(t) && NewLevel0(H, t, leafIndex, x) == Level(H, c, 0)
    requires var w := SetLevel(0, NewLevel0(H, t, leafIndex, x));
             PathWrites(H, Apply(t, w), w.hashes, leafIndex, 0, depth, leafIndex) == LevelWrites(H, c, 1, depth)
    ensures AddLeafWrites(H, t, leafIndex, x, depth) == LevelWrites(H, c, 0, depth)
  {
  }

  /** Adding a leaf to a complete tree writes the levels of the next tree, bottom up, then its root and size. */
  lemma {:induction false} AddLeafIsLevels<T>(H: Hasher<T>, t: Tree<T>, c: seq<T>, x: T, depth: nat)
    requires Stored(H, t, c, depth)
    ensures AddLeafWrites(H, t, |c|, x, depth) == LevelWrites(H, c + [x], 0, depth)
  {
    LeafWritten(H, t, c, x, depth);
    PathAboveLeaf(H, t, c, x, NewLevel0(H, t, |c|, x), depth);
    LeafUnfolds(H, t, c + [x], |c|, x, depth);
  }

  lemma {:induction false} LevelsUpdate<T>(H: Hasher<T>, t: Tree<T>, c: seq<T>, m: nat, e: nat, depth: nat, k: nat)
    requires m < |c| && e <= depth + 1 && Updated(H, t, c, m, depth, e, false)
    ensures Updated(H, Run(t, LevelWrites(H, c[..m + 1], e, depth), k), c, m, depth, e + k, k > depth + 1 - e)
    decreases depth + 1 - e
  {
    if e > depth {
      RunTwo(t, SetRoot(Root(H, c[..m + 1], depth)), SetSize(m + 1), [], k);
      assert [SetRoot(Root(H, c[..m + 1], depth)), SetSize(m + 1)] + [] == LevelWrites(H, c[..m + 1], e, depth);
    } else {
      var w := SetLevel(e, Level(H, c[..m + 1], e));
      RunCons(t, w, LevelWrites(H, c[..m + 1], e + 1, depth), k);
      if k > 0 {
        LevelsUpdate(H, Apply(t, w), c, m, e + 1, depth, k - 1);
      }
    }
  }

  /** After `k` writes of the update exactly the levels below `k` are new, and the root after depth + 2. */
  lemma {:induction false} UpdateAt<T>(H: Hasher<T>, t: Tree<T>, c: seq<T>, m: nat, depth: nat, k: nat)
    requires m < |c| && Stored(H, t, c[..m], depth)
    ensures Updated(H, Run(t, AddLeafWrites(H, t, m, c[m], depth), k), c, m, depth, k, k >= depth + 2)
  {
    PrefixAppend(c, m);
    AddLeafIsLevels(H, t, c[..m], c[m], depth);
    LevelsUpdate(H, t, c, m, 0, depth, k);
  }

  // ---------- what a reader gets ----------

  /** Level `e` was read after `times[e]` writes of the update. */
  function ReadProof<T>(H: Hasher<T>, t: Tree<T>, ws: seq<Write<T>>, i: nat, times: seq<nat>): (p: seq<T>)
    ensures |p| == |times|
  {
    seq(|times|, e requires 0 <= e < |times| =>
      var t' := Run(t, ws, times[e]);
      SiblingValue(H, t', GetLevel(H, t', e), Ancestor(i, e), e))
  }

  /** Siblings of leaf `i`, some of them from before the update and some from after it. */
  function MixedPath<T>(H: Hasher<T>, c: seq<T>, m: nat, i: nat, isNew: seq<bool>): (p: seq<T>)
    requires m < |c|
    ensures |p| == |isNew|
  {
    seq(|isNew|, e requires 0 <= e < |isNew| => Node(H, Shown(c, m, isNew[e]), e, Sibling(Ancestor(i, e))))
  }

  /** Which levels the reader saw updated. */
  function Seen(times: seq<nat>): (s: seq<bool>)
    ensures |s| == |times|
  {
    seq(|times|, e requires 0 <= e < |times| => e < times[e])
  }

  lemma {:induction false} ReadIsMixed<T>(H: Hasher<T>, t: Tree<T>, c: seq<T>, m: nat, i: nat, times: seq<nat>)
    requires m < |c| && Stored(H, t, c[..m], |times|)
    ensures ReadProof(H, t, AddLeafWrites(H, t, m, c[m], |times|), i, times) == MixedPath(H, c, m, i, Seen(times))
  {
    var depth, ws := |times|, AddLeafWrites(H, t, m, c[m], |times|);
    forall e: nat | e < depth
      ensures ReadProof(H, t, ws, i, times)[e] == MixedPath(H, c, m, i, Seen(times))[e]
    {
      UpdateAt(H, t, c, m, depth, times[e]);
      var shown, s := Shown(c, m, e < times[e]), Sibling(Ancestor(i, e));
      if s >= Width(|shown|, e) {
        NodePastEnd(H, shown, e, s);
      }
    }
  }

  // ---------- when it verifies ----------

  /** At level `e` the path of leaf `i` has the path of leaf `m` for a sibling. */
  predicate MeetAt(i: nat, m: nat, e: nat) {
    Sibling(Ancestor(i, e)) == Ancestor(m, e)
  }

  /** Two different leaves meet at exactly one level. */
  lemma {:induction false} MeetOnce(i: nat, m: nat, depth: nat) returns (level: nat)
    requires i != m && i < Pow2(depth) && m < Pow2(depth)
    ensures level < depth && MeetAt(i, m, level)
    ensures forall e: nat :: MeetAt(i, m, e) ==> e == level
  {
    InRange(i, depth);
    InRange(m, depth);
    level := 0;
    while Ancestor(i, level + 1) != Ancestor(m, level + 1)
      invariant level < depth
      invariant forall e: nat | e <= level :: Ancestor(i, e) != Ancestor(m, e)
      invariant forall e: nat | e < level :: !MeetAt(i, m, e)
      decreases depth - level
    {
      level := level + 1;
    }
    forall e: nat | e > level ensures !MeetAt(i, m, e) {
      StayTogether(i, m, level + 1, e);
    }
  }

  lemma {:induction false} StayTogether(i: nat, m: nat, d: nat, e: nat)
    requires d <= e && Ancestor(i, d) == Ancestor(m, d)
    ensures Ancestor(i, e) == Ancestor(m, e)
    decreases e
  {
    if d < e { StayTogether(i, m, d, e - 1); }
  }

  /** The node above the new leaf changes, and no other. */
  lemma {:induction false} NodeChanges<T(!new)>(H: Hasher<T>, c: seq<T>, m: nat, e: nat, j: nat)
    requires Injective(H) && m < |c| && c[m] != H.empty
    ensures Node(H, c[..m + 1], e, j) == Node(H, c[..m], e, j) <==> j != Ancestor(m, e)
  {
    PrefixAppend(c, m);
    if j != Ancestor(m, e) {
      NodeUntouched(H, c[..m], c[m], e, j);
    } else if Node(H, c[..m + 1], e, j) == Node(H, c[..m], e, j) {
      SameNodeSameLeaf(H, c[..m + 1], c[..m], e, m);
      assert false;
    }
  }

  /** A mixed path is the path of the tree behind the root exactly if the meeting level fits the root. */
  lemma {:induction false} MixedIsPath<T(!new)>(H: Hasher<T>, c: seq<T>, m: nat, i: nat, isNew: seq<bool>,
      newRoot: bool)
    requires Injective(H) && m < |c| && c[m] != H.empty
    ensures MixedPath(H, c, m, i, isNew) == Path(H, Shown(c, m, newRoot), i, |isNew|)
            <==> forall e | 0 <= e < |isNew| && MeetAt(i, m, e) :: isNew[e] == newRoot
  {
    var mixed, path := MixedPath(H, c, m, i, isNew), Path(H, Shown(c, m, newRoot), i, |isNew|);
    forall e: nat | e < |isNew| ensures mixed[e] == path[e] <==> (MeetAt(i, m, e) ==> isNew[e] == newRoot) {
      NodeChanges(H, c, m, e, Sibling(Ancestor(i, e)));
    }
    if mixed == path {
      forall e: nat | e < |isNew| && MeetAt(i, m, e) ensures isNew[e] == newRoot {
        assert mixed[e] == path[e];
      }
    }
  }

  /** What passes the path check against the root of `c` as leaf `i` is leaf `i` with its own path. */
  lemma {:induction false} FoldExact<T(!new)>(H: Hasher<T>, c: seq<T>, x: T, i: nat, path: seq<T>)
    requires Injective(H) && i < Pow2(|path|)
    ensures Fold(H, x, path, Flags(i, |path|)) == Root(H, c, |path|)
            <==> x == Leaf(H, c, i) && path == Path(H, c, i, |path|)
  {
    var flags := Flags(i, |path|);
    InRange(i, |path|);
    DescendFlags(i, |path|);
    if Fold(H, x, path, flags) == Root(H, c, |path|) {
      BindingAt(H, c, x, path, flags, 0);
    }
    PathFolds(H, c, i, |path|);
  }

  /**
   Siblings of leaf i from before and after the addition of leaf m lead to the old or the new root:
   for an older leaf exactly if the one level where the two paths meet is on the side of the root,
   for the new leaf exactly if the root is new.
   */
  lemma {:induction false} MixedVerifies<T(!new)>(H: Hasher<T>, c: seq<T>, m: nat, i: nat, isNew: seq<bool>,
      newRoot: bool)
    returns (level: nat)
    requires Injective(H) && m < |c| && c[m] != H.empty && i <= m < Pow2(|isNew|)
    ensures i < m ==> level < |isNew| && MeetAt(i, m, level)
    ensures Fold(H, c[i], MixedPath(H, c, m, i, isNew), Flags(i, |isNew|)) == Root(H, Shown(c, m, newRoot), |isNew|)
            <==> if i < m then isNew[level] == newRoot else newRoot
  {
    var shown := Shown(c, m, newRoot);
    level := 0;
    if i < m {
      level := MeetOnce(i, m, |isNew|);
    } else {
      forall e: nat ensures !MeetAt(m, m, e) {}
    }
    FoldExact(H, shown, c[i], i, MixedPath(H, c, m, i, isNew));
    MixedIsPath(H, c, m, i, isNew, newRoot);
    assert Leaf(H, shown, i) == c[i] <==> i < m || newRoot;
  }

  /** A proof for leaf i, read while leaf m is being added, each level and the root at any moment of the update. */
  lemma {:induction false} ReadDuringUpdate<T(!new)>(H: Hasher<T>, t: Tree<T>, c: seq<T>, m: nat, i: nat,
      times: seq<nat>, rootTime: nat)
    returns (level: nat)
    requires Injective(H) && m < |c| && c[m] != H.empty && i <= m < Pow2(|times|)
    requires Stored(H, t, c[..m], |times|)
    ensures i < m ==> level < |times| && MeetAt(i, m, level)
    ensures var depth := |times|;
            var ws := AddLeafWrites(H, t, m, c[m], depth);
            Fold(H, c[i], ReadProof(H, t, ws, i, times), Flags(i, depth)) == GetRoot(H, Run(t, ws, rootTime))
            <==> if i < m then level < times[level] <==> rootTime >= depth + 2 else rootTime >= depth + 2
  {
    UpdateAt(H, t, c, m, |times|, rootTime);
    ReadIsMixed(H, t, c, m, i, times);
    level := MixedVerifies(H, c, m, i, Seen(times), rootTime >= |times| + 2);
  }

  /** Every level read at the same moment: what the store itself serves. */
  lemma {:induction false} ReadAllAtOnce<T>(H: Hasher<T>, t: Tree<T>, ws: seq<Write<T>>, i: nat, depth: nat, k: nat)
    ensures ReadProof(H, t, ws, i, seq(depth, _ => k)) == StoredProof(H, Run(t, ws, k), i, depth)
  {
  }

  /** Read at one moment: wrong from the write of the meeting level until the write of the root. */
  lemma {:induction false} ReadAtOnce<T(!new)>(H: Hasher<T>, t: Tree<T>, c: seq<T>, m: nat, i: nat, depth: nat, k: nat)
    returns (level: nat)
    requires Injective(H) && m < |c| && c[m] != H.empty && i < m < Pow2(depth)
    requires Stored(H, t, c[..m], depth)
    ensures level < depth && MeetAt(i, m, level)
    ensures var t' := Run(t, AddLeafWrites(H, t, m, c[m], depth), k);
            Fold(H, c[i], StoredProof(H, t', i, depth), Flags(i, depth)) == GetRoot(H, t')
            <==> k <= level || k >= depth + 2
  {
    level := ReadDuringUpdate(H, t, c, m, i, seq(depth, _ => k), k);
    ReadAllAtOnce(H, t, AddLeafWrites(H, t, m, c[m], depth), i, depth, k);
  }
}
