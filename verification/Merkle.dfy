/**
 The Merkle tree as mathematics: what every node of the tree over a list of
 leaves is, for any hash. The list is unbounded; positions past its end hold the
 empty leaf. The four implementations in the repository are related to `Node`.
 */
module Merkle {
  import opened Arithmetic

  /** Poseidon2 on two inputs is a parameter: nothing here depends on which hash it is. */
  datatype Hasher<!T> = Hasher(hash: (T, T) -> T, empty: T)

  function Pow2(k: nat): (p: nat)
    ensures p > 0
  {
    if k == 0 then 1 else 2 * Pow2(k - 1)
  }

  /** Root of the empty subtree of height `d`. */
  function Zero<T>(H: Hasher<T>, d: nat): T {
    if d == 0 then H.empty else var z := Zero(H, d - 1); H.hash(z, z)
  }

  function Leaf<T>(H: Hasher<T>, c: seq<T>, i: nat): T {
    if i < |c| then c[i] else H.empty
  }

  /** Node `i` of level `d` (level 0 holds the leaves). */
  function Node<T>(H: Hasher<T>, c: seq<T>, d: nat, i: nat): T {
    if d == 0 then Leaf(H, c, i)
    else H.hash(Node(H, c, d - 1, 2 * i), Node(H, c, d - 1, 2 * i + 1))
  }

  function Root<T>(H: Hasher<T>, c: seq<T>, depth: nat): T {
    Node(H, c, depth, 0)
  }

  /** The node of level `d` above leaf `i`. */
  function Ancestor(i: nat, d: nat): nat {
    if d == 0 then i else Ancestor(i, d - 1) / 2
  }

  function Sibling(i: nat): nat {
    if i % 2 == 0 then i + 1 else i - 1
  }

  /** Number of stored entries at level `d` of a ragged tree with `n` leaves. */
  function Width(n: nat, d: nat): nat {
    if d == 0 then (if n == 0 then 1 else n) else (Width(n, d - 1) + 1) / 2
  }

  /** Level `d` as the ragged tree stores it. */
  function Level<T>(H: Hasher<T>, c: seq<T>, d: nat): (s: seq<T>)
    ensures |s| == Width(|c|, d)
    ensures forall i | 0 <= i < |s| :: s[i] == Node(H, c, d, i)
  {
    seq(Width(|c|, d), i requires 0 <= i => Node(H, c, d, i))
  }

  /** One round of the path check: the flag says that the current value is the left child. */
  function Combine<T>(H: Hasher<T>, current: T, sibling: T, even: bool): T {
    if even then H.hash(current, sibling) else H.hash(sibling, current)
  }

  /** The value the path check computes from a leaf, from the bottom up. */
  function Fold<T>(H: Hasher<T>, leaf: T, path: seq<T>, isEven: seq<bool>): T
    requires |path| == |isEven|
  {
    if |path| == 0 then leaf
    else
      var m := |path| - 1;
      Combine(H, Fold(H, leaf, path[..m], isEven[..m]), path[m], isEven[m])
  }

  /** The siblings met on the way from leaf `i` to level `depth`. */
  function Path<T>(H: Hasher<T>, c: seq<T>, i: nat, depth: nat): (p: seq<T>)
    ensures |p| == depth
  {
    seq(depth, d requires 0 <= d => Node(H, c, d, Sibling(Ancestor(i, d))))
  }

  function Flags(i: nat, depth: nat): (f: seq<bool>)
    ensures |f| == depth
  {
    seq(depth, d requires 0 <= d => Ancestor(i, d) % 2 == 0)
  }

  /** The leaf reached from node `j` of level |isEven| by following the flags down. */
  function Descend(isEven: seq<bool>, j: nat): nat {
    if |isEven| == 0 then j
    else
      var m := |isEven| - 1;
      Descend(isEven[..m], if isEven[m] then 2 * j else 2 * j + 1)
  }

  // ---------- positions ----------

  /** `idx /= 2` repeated `d` times is a shift by `d` bits. */
  lemma {:induction false} AncestorIsShift(i: nat, d: nat)
    ensures Ancestor(i, d) == i / Pow2(d)
  {
    if d > 0 {
      AncestorIsShift(i, d - 1);
      DivTwice(i, Pow2(d - 1));
    }
  }

  lemma {:induction false} InRange(i: nat, d: nat)
    ensures Ancestor(i, d) == 0 <==> i < Pow2(d)
  {
    AncestorIsShift(i, d);
    var p := Pow2(d);
    if i < p { DivUnique(i, p, 0, i); }
    if i / p == 0 { assert i == 0 * p + i % p; }
  }

  lemma {:induction false} WidthIsAncestor(n: nat, d: nat)
    requires n > 0
    ensures Width(n, d) == Ancestor(n - 1, d) + 1
  {
    if d > 0 { WidthIsAncestor(n, d - 1); }
  }

  lemma {:induction false} WidthOfEmpty(d: nat)
    ensures Width(0, d) == 1
  {
    if d > 0 { WidthOfEmpty(d - 1); }
  }

  /** Level `d` holds max(1, ceil(n / 2^d)) entries. */
  lemma {:induction false} WidthClosedForm(n: nat, d: nat)
    ensures Width(n, d) == if n == 0 then 1 else (n + Pow2(d) - 1) / Pow2(d)
    ensures Width(n, d) >= 1
  {
    if n == 0 {
      WidthOfEmpty(d);
    } else {
      WidthIsAncestor(n, d);
      AncestorIsShift(n - 1, d);
      var p := Pow2(d);
      var q, r := (n - 1) / p, (n - 1) % p;
      assert n - 1 + p == (q + 1) * p + r;
      DivUnique(n - 1 + p, p, q + 1, r);
    }
  }

  /** Appending leaf n makes its ancestor the last entry of every level. */
  lemma WidthOfAppend(n: nat, d: nat)
    ensures Width(n + 1, d) == Ancestor(n, d) + 1
    ensures Width(n, d) <= Width(n + 1, d) <= Width(n, d) + 1
  {
    WidthIsAncestor(n + 1, d);
    if n == 0 {
      WidthOfEmpty(d);
      AncestorIsShift(0, d);
      DivUnique(0, Pow2(d), 0, 0);
    } else {
      WidthIsAncestor(n, d);
      AncestorStep(n - 1, d);
    }
  }

  lemma {:induction false} AncestorStep(n: nat, d: nat)
    ensures Ancestor(n, d) <= Ancestor(n + 1, d) <= Ancestor(n, d) + 1
  {
    if d > 0 { AncestorStep(n, d - 1); }
  }

  // ---------- nodes ----------

  /** Past the stored entries every node is the empty hash of its level. */
  lemma {:induction false} NodePastEnd<T>(H: Hasher<T>, c: seq<T>, d: nat, i: nat)
    requires i >= Width(|c|, d) || |c| == 0
    ensures Node(H, c, d, i) == Zero(H, d)
  {
    if d > 0 {
      NodePastEnd(H, c, d - 1, 2 * i);
      NodePastEnd(H, c, d - 1, 2 * i + 1);
    }
  }

  /** Appending a leaf changes only the nodes above it. */
  lemma {:induction false} NodeUntouched<T>(H: Hasher<T>, c: seq<T>, x: T, d: nat, i: nat)
    requires i != Ancestor(|c|, d)
    ensures Node(H, c + [x], d, i) == Node(H, c, d, i)
  {
    if d > 0 {
      NodeUntouched(H, c, x, d - 1, 2 * i);
      NodeUntouched(H, c, x, d - 1, 2 * i + 1);
    }
  }

  // ---------- proofs ----------

  /** A longer path is the shorter one with one more sibling and one more flag. */
  lemma {:induction false} PathStep<T>(H: Hasher<T>, c: seq<T>, i: nat, m: nat)
    ensures Path(H, c, i, m + 1)[..m] == Path(H, c, i, m)
    ensures Path(H, c, i, m + 1)[m] == Node(H, c, m, Sibling(Ancestor(i, m)))
    ensures Flags(i, m + 1)[..m] == Flags(i, m)
    ensures Flags(i, m + 1)[m] == (Ancestor(i, m) % 2 == 0)
  {
  }

  lemma {:induction false} PathGrows<T>(H: Hasher<T>, c: seq<T>, i: nat, m: nat)
    ensures Path(H, c, i, m + 1) == Path(H, c, i, m) + [Node(H, c, m, Sibling(Ancestor(i, m)))]
    ensures Flags(i, m + 1) == Flags(i, m) + [Ancestor(i, m) % 2 == 0]
  {
    PathStep(H, c, i, m);
    LastSplit(Path(H, c, i, m + 1), m);
    LastSplit(Flags(i, m + 1), m);
  }

  lemma LastSplit<A>(s: seq<A>, m: nat)
    requires |s| == m + 1
    ensures s == s[..m] + [s[m]]
  {
  }

  /** A parent is its child combined with that child's sibling. */
  lemma ParentOfChild<T>(H: Hasher<T>, c: seq<T>, m: nat, j: nat)
    ensures Node(H, c, m + 1, j / 2) == Combine(H, Node(H, c, m, j), Node(H, c, m, Sibling(j)), j % 2 == 0)
  {
    if j % 2 == 0 {
      assert 2 * (j / 2) == j;
    } else {
      assert 2 * (j / 2) + 1 == j;
    }
  }

  /** Completeness of the path check at every node and every leaf, filled or empty. */
  lemma {:induction false} PathFolds<T>(H: Hasher<T>, c: seq<T>, i: nat, depth: nat)
    ensures Fold(H, Leaf(H, c, i), Path(H, c, i, depth), Flags(i, depth)) == Node(H, c, depth, Ancestor(i, depth))
  {
    if depth > 0 {
      var m := depth - 1;
      var a := Ancestor(i, m);
      PathFolds(H, c, i, m);
      PathStep(H, c, i, m);
      FoldStep(H, Leaf(H, c, i), Path(H, c, i, depth), Flags(i, depth), m);
      ParentOfChild(H, c, m, a);
      assert Ancestor(i, depth) == a / 2;
    }
  }

  lemma {:induction false} FoldStep<T>(H: Hasher<T>, leaf: T, path: seq<T>, isEven: seq<bool>, m: nat)
    requires |path| == |isEven| == m + 1
    ensures Fold(H, leaf, path, isEven) == Combine(H, Fold(H, leaf, path[..m], isEven[..m]), path[m], isEven[m])
  {
  }

  ghost predicate Injective<T(!new)>(H: Hasher<T>) {
    forall a, b, a', b' {:trigger H.hash(a, b), H.hash(a', b')} ::
      H.hash(a, b) == H.hash(a', b') ==> a == a' && b == b'
  }

  ghost predicate NeverEmpty<T(!new)>(H: Hasher<T>) {
    forall a, b {:trigger H.hash(a, b)} :: H.hash(a, b) != H.empty
  }

  /** With an injective hash a parent determines both children. */
  lemma ChildrenOfParent<T(!new)>(H: Hasher<T>, c: seq<T>, m: nat, j: nat, below: T, sibling: T, even: bool)
    requires Injective(H)
    requires Combine(H, below, sibling, even) == Node(H, c, m + 1, j)
    ensures var child := if even then 2 * j else 2 * j + 1;
            below == Node(H, c, m, child) && sibling == Node(H, c, m, Sibling(child))
  {
    assert Node(H, c, m + 1, j) == H.hash(Node(H, c, m, 2 * j), Node(H, c, m, 2 * j + 1));
  }

  /** A path that reaches node `j` names one leaf, and is that leaf's own path. */
  lemma {:induction false} BindingAt<T(!new)>(H: Hasher<T>, c: seq<T>, x: T, path: seq<T>, isEven: seq<bool>, j: nat)
    requires Injective(H)
    requires |path| == |isEven|
    requires Fold(H, x, path, isEven) == Node(H, c, |path|, j)
    ensures var i := Descend(isEven, j);
            && Ancestor(i, |path|) == j
            && x == Leaf(H, c, i)
            && isEven == Flags(i, |path|)
            && path == Path(H, c, i, |path|)
    decreases |path|
  {
    if |path| > 0 {
      var m := |path| - 1;
      var child := if isEven[m] then 2 * j else 2 * j + 1;
      ChildrenOfParent(H, c, m, j, Fold(H, x, path[..m], isEven[..m]), path[m], isEven[m]);
      BindingAt(H, c, x, path[..m], isEven[..m], child);
      var i := Descend(isEven[..m], child);
      PathGrows(H, c, i, m);
      LastSplit(path, m);
      LastSplit(isEven, m);
    }
  }

  /**
   Position binding: what passes the path check against the root of a leaf list is
   the leaf whose index has bit k set exactly when `isEven[k]` is false, with the
   one sibling path that leaf has.
   */
  lemma {:induction false} PositionBinding<T(!new)>(H: Hasher<T>, c: seq<T>, x: T, path: seq<T>, isEven: seq<bool>)
    requires Injective(H)
    requires |path| == |isEven|
    requires Fold(H, x, path, isEven) == Root(H, c, |path|)
    ensures var i := Descend(isEven, 0);
            && i < Pow2(|path|)
            && (forall k | 0 <= k < |path| :: isEven[k] <==> (i / Pow2(k)) % 2 == 0)
            && x == Leaf(H, c, i)
            && path == Path(H, c, i, |path|)
  {
    BindingAt(H, c, x, path, isEven, 0);
    var i := Descend(isEven, 0);
    InRange(i, |path|);
    forall k | 0 <= k < |path| ensures isEven[k] <==> (i / Pow2(k)) % 2 == 0 {
      AncestorIsShift(i, k);
      assert isEven[k] == Flags(i, |path|)[k];
    }
  }

  /** The flags of a leaf lead back down to it. */
  lemma {:induction false} DescendFlags(i: nat, d: nat)
    ensures Descend(Flags(i, d), Ancestor(i, d)) == i
  {
    if d > 0 {
      DescendFlags(i, d - 1);
      var f := Flags(i, d);
      assert f[..d - 1] == Flags(i, d - 1);
      assert f[d - 1] == (Ancestor(i, d - 1) % 2 == 0);
    }
  }

  lemma {:induction false} SameNodeSameLeaf<T(!new)>(H: Hasher<T>, c: seq<T>, c': seq<T>, d: nat, i: nat)
    requires Injective(H)
    requires Node(H, c, d, Ancestor(i, d)) == Node(H, c', d, Ancestor(i, d))
    ensures Leaf(H, c, i) == Leaf(H, c', i)
  {
    if d > 0 {
      SameNodeSameLeaf(H, c, c', d - 1, i);
    }
  }

  /** Two lists hold the same leaves, padding included, as far as a tree of this depth goes. */
  ghost predicate SameLeaves<T>(H: Hasher<T>, c: seq<T>, c': seq<T>, depth: nat) {
    forall i: nat | i < Pow2(depth) :: Leaf(H, c, i) == Leaf(H, c', i)
  }

  /** Nodes over equal leaves are equal, for any hash. */
  lemma {:induction false} SameLeavesSameNode<T>(H: Hasher<T>, c: seq<T>, c': seq<T>, depth: nat, d: nat, j: nat)
    requires SameLeaves(H, c, c', depth)
    requires (j + 1) * Pow2(d) <= Pow2(depth)
    ensures Node(H, c, d, j) == Node(H, c', d, j)
    decreases d
  {
    if d > 0 {
      var p := Pow2(d - 1);
      assert (j + 1) * Pow2(d) == (2 * j + 2) * p;
      MulNext(2 * j + 1, p);
      SameLeavesSameNode(H, c, c', depth, d - 1, 2 * j);
      SameLeavesSameNode(H, c, c', depth, d - 1, 2 * j + 1);
    }
  }

  /** Roots agree exactly when all padded leaves do. */
  lemma {:induction false} RootsEqualExactly<T(!new)>(H: Hasher<T>, c: seq<T>, c': seq<T>, depth: nat)
    requires Injective(H)
    ensures Root(H, c, depth) == Root(H, c', depth) <==> SameLeaves(H, c, c', depth)
  {
    if Root(H, c, depth) == Root(H, c', depth) {
      forall i: nat | i < Pow2(depth) ensures Leaf(H, c, i) == Leaf(H, c', i) {
        InRange(i, depth);
        SameNodeSameLeaf(H, c, c', depth, i);
      }
    } else if SameLeaves(H, c, c', depth) {
      SameLeavesSameNode(H, c, c', depth, depth, 0);
      assert false;
    }
  }

  lemma PrefixOfLeaves<T>(H: Hasher<T>, c: seq<T>, c': seq<T>, n: nat)
    requires |c| <= n && H.empty !in c
    requires forall i: nat | i < n :: Leaf(H, c, i) == Leaf(H, c', i)
    ensures c <= c'
  {
    forall i | 0 <= i < |c| ensures i < |c'| && c[i] == c'[i] {
      assert Leaf(H, c, i) == Leaf(H, c', i);
      assert c[i] in c;
    }
    assert |c| > 0 ==> c[|c| - 1] in c;
  }

  /** Distinct lists of real leaves that fit in the tree have distinct roots. */
  lemma {:induction false} RootDeterminesLeaves<T(!new)>(H: Hasher<T>, c: seq<T>, c': seq<T>, depth: nat)
    requires Injective(H)
    requires |c| <= Pow2(depth) && |c'| <= Pow2(depth)
    requires H.empty !in c && H.empty !in c'
    requires Root(H, c, depth) == Root(H, c', depth)
    ensures c == c'
  {
    RootsEqualExactly(H, c, c', depth);
    PrefixOfLeaves(H, c, c', Pow2(depth));
    PrefixOfLeaves(H, c', c, Pow2(depth));
  }

  /** The root of a non-empty list of real leaves is never the empty value. */
  lemma RootNotEmpty<T(!new)>(H: Hasher<T>, c: seq<T>, depth: nat)
    requires NeverEmpty(H)
    requires H.empty !in c && |c| > 0
    ensures Root(H, c, depth) != H.empty
  {
    if depth > 0 {
      assert Root(H, c, depth) == H.hash(Node(H, c, depth - 1, 0), Node(H, c, depth - 1, 1));
    }
  }
}
