/**
 The merkle service (app/merkle/src/poseidon.js): the dense tree of 2^depth leaves,
 rebuilt from the whole list of commitments on every request.
 */
module MerkleService {
  import opened Wrappers
  import opened Merkle

  /** Every level of the dense tree, node by node. */
  ghost predicate IsDenseTree<T>(H: Hasher<T>, c: seq<T>, depth: nat, tree: seq<seq<T>>) {
    && |tree| == depth + 1
    && forall d | 0 <= d <= depth :: IsDenseLevel(H, c, depth, d, tree[d])
  }

  ghost predicate IsDenseLevel<T>(H: Hasher<T>, c: seq<T>, depth: nat, d: nat, level: seq<T>)
    requires d <= depth
  {
    && |level| == Pow2(depth - d)
    && forall i | 0 <= i < |level| :: level[i] == Node(H, c, d, i)
  }

  /** `calls` counts the Poseidon2 evaluations. */
  method BuildTree<T>(H: Hasher<T>, commitments: seq<T>, depth: nat)
    returns (tree: seq<seq<T>>, root: T, ghost calls: nat)
    ensures IsDenseTree(H, commitments, depth, tree)
    ensures root == Root(H, commitments, depth)
    ensures calls == Pow2(depth) - 1
  {
    var totalLeaves := Pow2(depth);
    var level := new T[totalLeaves](_ => H.empty);
    for i := 0 to totalLeaves
      invariant forall k | 0 <= k < i :: level[k] == Node(H, commitments, 0, k)
    {
      level[i] := if i < |commitments| then commitments[i] else H.empty;
    }

    tree := [level[..]];
    calls := 0;
    for d := 0 to depth
      invariant |tree| == d + 1 && tree[d] == level[..]
      invariant forall e | 0 <= e <= d :: IsDenseLevel(H, commitments, depth, e, tree[e])
      invariant calls == Pow2(depth) - Pow2(depth - d)
    {
      var nextLen := level.Length / 2;
      assert level.Length == 2 * Pow2(depth - d - 1);
      assert IsDenseLevel(H, commitments, depth, d, tree[d]);
      var next := new T[nextLen](_ => H.empty);
      for i := 0 to nextLen
        invariant tree[d] == level[..]
        invariant forall k | 0 <= k < i :: next[k] == Node(H, commitments, d + 1, k)
        invariant calls == Pow2(depth) - Pow2(depth - d) + i
      {
        assert level[2 * i] == tree[d][2 * i] && level[2 * i + 1] == tree[d][2 * i + 1];
        next[i] := H.hash(level[2 * i], level[2 * i + 1]);
        calls := calls + 1;
      }
      tree := tree + [next[..]];
      level := next;
    }
    assert IsDenseLevel(H, commitments, depth, depth, tree[depth]);
    root := tree[|tree| - 1][0];
  }

  /** Position `j` of level `d` exists exactly if the leaves below it do. */
  lemma {:induction false} AncestorInLevel(i: nat, depth: nat, d: nat)
    requires d <= depth
    ensures Ancestor(i, d) < Pow2(depth - d) <==> i < Pow2(depth)
  {
    if d > 0 {
      AncestorInLevel(i, depth, d - 1);
      assert Pow2(depth - d + 1) == 2 * Pow2(depth - d);
    }
  }

  /** Reading past the end of a JavaScript array gives no value. */
  function At<T>(s: seq<T>, i: nat): Option<T> {
    if i < |s| then Some(s[i]) else None
  }

  /** The sibling read at level `d`: a node of the tree, or nothing if the index lies outside. */
  function SiblingRead<T>(H: Hasher<T>, c: seq<T>, i: nat, depth: nat, d: nat): Option<T> {
    if i < Pow2(depth) then Some(Node(H, c, d, Sibling(Ancestor(i, d)))) else None
  }

  lemma {:induction false} SiblingAt<T>(H: Hasher<T>, c: seq<T>, depth: nat, tree: seq<seq<T>>, i: nat, d: nat)
    requires IsDenseTree(H, c, depth, tree) && d < depth
    ensures d < |tree| && At(tree[d], Sibling(Ancestor(i, d))) == SiblingRead(H, c, i, depth, d)
  {
    var s := Sibling(Ancestor(i, d));
    AncestorInLevel(i, depth, d);
    assert Pow2(depth - d) == 2 * Pow2(depth - d - 1);
    assert s < Pow2(depth - d) <==> i < Pow2(depth);
    assert IsDenseLevel(H, c, depth, d, tree[d]);
  }

  /** Read level by level: the siblings of the dense tree. */
  ghost predicate ProofRead<T>(H: Hasher<T>, c: seq<T>, i: nat, depth: nat, proof: seq<Option<T>>) {
    forall d | 0 <= d < |proof| :: proof[d] == SiblingRead(H, c, i, depth, d)
  }

  lemma {:induction false} ProofReadGrows<T>(H: Hasher<T>, c: seq<T>, depth: nat, tree: seq<seq<T>>, i: nat,
      proof: seq<Option<T>>)
    requires IsDenseTree(H, c, depth, tree) && |proof| < depth && ProofRead(H, c, i, depth, proof)
    ensures |proof| < |tree|
    ensures ProofRead(H, c, i, depth, proof + [At(tree[|proof|], Sibling(Ancestor(i, |proof|)))])
  {
    SiblingAt(H, c, depth, tree, i, |proof|);
  }

  /** Inside the tree the answer is the sibling path; outside there is no sibling at any level. */
  ghost predicate IsPathOrMissing<T>(H: Hasher<T>, c: seq<T>, i: nat, depth: nat, proof: seq<Option<T>>) {
    && |proof| == depth
    && forall d | 0 <= d < depth :: proof[d] == if i < Pow2(depth) then Some(Path(H, c, i, depth)[d]) else None
  }

  method BuildProof<T>(H: Hasher<T>, commitments: seq<T>, leafIndex: nat, depth: nat)
    returns (proof: seq<Option<T>>, isEven: seq<bool>, root: T)
    ensures IsPathOrMissing(H, commitments, leafIndex, depth, proof)
    ensures isEven == Flags(leafIndex, depth)
    ensures root == Root(H, commitments, depth)
  {
    var tree;
    ghost var calls;
    tree, root, calls := BuildTree(H, commitments, depth);
    proof, isEven := [], [];
    var idx := leafIndex;
    for d := 0 to depth
      invariant idx == Ancestor(leafIndex, d)
      invariant |proof| == d && ProofRead(H, commitments, leafIndex, depth, proof)
      invariant isEven == Flags(leafIndex, d)
    {
      PathGrows(H, commitments, leafIndex, d);
      var siblingIdx := if idx % 2 == 0 then idx + 1 else idx - 1;
      ProofReadGrows(H, commitments, depth, tree, leafIndex, proof);
      proof := proof + [At(tree[d], siblingIdx)];
      isEven := isEven + [idx % 2 == 0];
      idx := idx / 2;
    }
  }
}
