/** The incremental tree refines the dense one, and its proofs pass the path check. */
module Incremental {
  import opened Wrappers
  import opened Merkle
  import opened MerkleService
  import opened TreeStore
  import opened CrashRecovery

  function EmptyStore<T>(): Tree<T> {
    Tree(map[], map[], None, None)
  }

  /** The store after `init_empty_tree` and `add_leaf` of every commitment in order. */
  function Grown<T>(H: Hasher<T>, c: seq<T>, depth: nat): Tree<T> {
    if |c| == 0 then Finish(EmptyStore(), InitWrites(H, depth))
    else
      var m := |c| - 1;
      var t := Grown(H, c[..m], depth);
      Finish(t, AddLeafWrites(H, t, m, c[m], depth))
  }

  lemma {:induction false} GrownIsStored<T>(H: Hasher<T>, c: seq<T>, depth: nat)
    ensures Stored(H, Grown(H, c, depth), c, depth)
    decreases |c|
  {
    if |c| == 0 {
      InitNear(H, EmptyStore(), depth, c, |InitWrites(H, depth)|);
      assert c == [];
    } else {
      var m := |c| - 1;
      var t := Grown(H, c[..m], depth);
      GrownIsStored(H, c[..m], depth);
      StoredIsBetween(H, t, c, m, depth);
      AddNextLeaf(H, t, c, depth, depth + 3);
      assert c[..m + 1] == c;
    }
  }

  /**
   Refinement: entry by entry the ragged levels are the dense ones, what they leave out is the
   empty hash of the level, and the roots agree.
   */
  ghost predicate RefinesDense<T>(t: Tree<T>, n: nat, depth: nat, tree: seq<seq<T>>, root: T) {
    && |tree| == depth + 1
    && (forall d: nat | d <= depth ::
          d in t.levels && d in t.empties && LevelRefines(t.levels[d], t.empties[d], n, d, tree[d]))
    && t.root == Some(root)
    && GetSize(t) == n
  }

  ghost predicate LevelRefines<T>(level: seq<T>, empty: T, n: nat, d: nat, dense: seq<T>) {
    && |level| == (if n == 0 then 1 else (n + Pow2(d) - 1) / Pow2(d))
    && (forall i | 0 <= i < |dense| :: dense[i] == if i < |level| then level[i] else empty)
  }

  lemma StoredRefinesDense<T>(H: Hasher<T>, t: Tree<T>, c: seq<T>, depth: nat, tree: seq<seq<T>>, root: T)
    requires Stored(H, t, c, depth)
    requires IsDenseTree(H, c, depth, tree) && root == Root(H, c, depth)
    ensures RefinesDense(t, |c|, depth, tree, root)
  {
    forall d: nat | d <= depth
      ensures d in t.levels && d in t.empties && LevelRefines(t.levels[d], t.empties[d], |c|, d, tree[d])
    {
      assert IsDenseLevel(H, c, depth, d, tree[d]);
      WidthClosedForm(|c|, d);
      forall i | |t.levels[d]| <= i < |tree[d]| ensures tree[d][i] == Zero(H, d) {
        NodePastEnd(H, c, d, i);
      }
    }
  }

  /** The fast form refines the slow one, for every list of commitments, even one that overflows the tree. */
  lemma {:induction false} GrownRefinesDense<T>(H: Hasher<T>, c: seq<T>, depth: nat, tree: seq<seq<T>>, root: T)
    requires IsDenseTree(H, c, depth, tree) && root == Root(H, c, depth)
    ensures RefinesDense(Grown(H, c, depth), |c|, depth, tree, root)
  {
    GrownIsStored(H, c, depth);
    StoredRefinesDense(H, Grown(H, c, depth), c, depth, tree, root);
  }

  /** What `get_proof` reads from the store. */
  function StoredProof<T>(H: Hasher<T>, t: Tree<T>, i: nat, depth: nat): (p: seq<T>)
    ensures |p| == depth
  {
    seq(depth, d requires 0 <= d => SiblingValue(H, t, GetLevel(H, t, d), Ancestor(i, d), d))
  }

  lemma {:induction false} StoredProofGrows<T>(H: Hasher<T>, t: Tree<T>, i: nat, d: nat)
    ensures StoredProof(H, t, i, d + 1)
         == StoredProof(H, t, i, d) + [SiblingValue(H, t, GetLevel(H, t, d), Ancestor(i, d), d)]
    ensures Flags(i, d + 1) == Flags(i, d) + [Ancestor(i, d) % 2 == 0]
  {
    var a, b := StoredProof(H, t, i, d + 1), StoredProof(H, t, i, d);
    assert forall k | 0 <= k < d :: a[k] == b[k];
    LastSplit(a, d);
    LastSplit(Flags(i, d + 1), d);
    assert Flags(i, d + 1)[..d] == Flags(i, d);
  }

  /** The incremental proof is the dense proof, for every index, filled or empty. */
  lemma StoredProofIsPath<T>(H: Hasher<T>, t: Tree<T>, c: seq<T>, i: nat, depth: nat)
    requires Stored(H, t, c, depth)
    ensures StoredProof(H, t, i, depth) == Path(H, c, i, depth)
  {
    forall d: nat | d < depth ensures StoredProof(H, t, i, depth)[d] == Path(H, c, i, depth)[d] {
      var s := Sibling(Ancestor(i, d));
      if s >= Width(|c|, d) {
        NodePastEnd(H, c, d, s);
      }
    }
  }

  /** Proof round trip: the path check from leaf `i` gives the stored root. */
  lemma {:induction false} StoredProofVerifies<T>(H: Hasher<T>, t: Tree<T>, c: seq<T>, i: nat, depth: nat)
    requires Stored(H, t, c, depth) && i < Pow2(depth)
    ensures Fold(H, Leaf(H, c, i), StoredProof(H, t, i, depth), Flags(i, depth)) == GetRoot(H, t)
  {
    StoredProofIsPath(H, t, c, i, depth);
    PathFolds(H, c, i, depth);
    InRange(i, depth);
  }
}
