/**
 The Redis wrapper and the tree operations on it (app/backend/src/cache.rs, tree.rs).
 Each operation is proved to issue exactly the writes `TreeStore` lists for it, and to
 stop at the first one that fails.
 */
module TreeCache {
  import opened Wrappers
  import opened Merkle
  import opened TreeStore
  import opened Incremental

  class Cache<T> {
    var levels: map<nat, seq<T>>
    var empties: map<nat, T>
    var root: Option<T>
    var size: Option<nat>
    var lastSignature: Option<nat>
    /** What the connection will do to the SET commands still to come. */
    var redis: Redis

    constructor ()
      ensures Tree() == EmptyStore() && lastSignature == None
    {
      levels, empties, root, size, lastSignature := map[], map[], None, None, None;
    }

    function Tree(): Tree<T>
      reads this
    {
      TreeStore.Tree(levels, empties, root, size)
    }

    /** Whether the next command succeeds, and whether it takes effect; a reply can be lost after the effect. */
    method Command() returns (ok: bool, effect: bool)
      modifies this`redis
      ensures ok <==> Lasts(old(redis), 1)
      ensures effect <==> Reach(old(redis)) > 0
      ensures redis == After(old(redis), 1)
    {
      ok, effect := Lasts(redis, 1), Reach(redis) > 0;
      redis := After(redis, 1);
    }

    method Set(w: Write<T>) returns (ok: bool)
      modifies this
      ensures ok <==> Lasts(old(redis), 1)
      ensures Tree() == if Reach(old(redis)) > 0 then Apply(old(Tree()), w) else old(Tree())
      ensures redis == After(old(redis), 1)
      ensures lastSignature == old(lastSignature)
    {
      var effect;
      ok, effect := Command();
      if effect {
        match w {
          case SetLevel(d, hashes) => levels := levels[d := hashes];
          case SetEmpty(d, hash) => empties := empties[d := hash];
          case SetRoot(r) => root := Some(r);
          case SetSize(n) => size := Some(n);
        }
      }
    }

    method SetLastSignature(signature: nat) returns (ok: bool)
      modifies this
      ensures ok <==> Lasts(old(redis), 1)
      ensures lastSignature == if Reach(old(redis)) > 0 then Some(signature) else old(lastSignature)
      ensures redis == After(old(redis), 1)
      ensures Tree() == old(Tree())
    {
      var effect;
      ok, effect := Command();
      if effect {
        lastSignature := Some(signature);
      }
    }
  }

  /** The operation issued `ws` up to the first command that failed, and succeeded if none did. */
  twostate predicate Executed<T>(cache: Cache<T>, ws: seq<Write<T>>, ok: bool)
    reads cache
  {
    && (ok <==> Lasts(old(cache.redis), |ws|))
    && cache.Tree() == Run(old(cache.Tree()), ws, Reach(old(cache.redis)))
    && cache.redis == After(old(cache.redis), |ws|)
    && cache.lastSignature == old(cache.lastSignature)
  }

  method InitEmptyTree<T>(H: Hasher<T>, cache: Cache<T>, depth: nat) returns (ok: bool)
    modifies cache
    ensures Executed(cache, InitWrites(H, depth), ok)
  {
    ghost var t0, r0, ws := cache.Tree(), cache.redis, InitWrites(H, depth);
    var current := H.empty;
    HalfwayOn(t0, r0, ws, cache.Tree(), cache.redis, EmptyLevelWrites(0, current), InitFrom(H, 1, current, depth));
    ok := WriteEmptyLevel(cache, 0, current);
    if !ok { return; }

    for d := 1 to depth + 1
      invariant ok
      invariant Halfway(t0, r0, ws, cache.Tree(), cache.redis, InitFrom(H, d, current, depth))
      invariant cache.lastSignature == old(cache.lastSignature)
    {
      current := H.hash(current, current);
      HalfwayOn(t0, r0, ws, cache.Tree(), cache.redis, EmptyLevelWrites(d, current), InitFrom(H, d + 1,
          current, depth));
      ok := WriteEmptyLevel(cache, d, current);
      if !ok { return; }
    }
    ok := WriteRootAndSize(cache, current, 0);
  }

  /** The two writes of one level: the empty hash, then the level with nothing else in it. */
  method WriteEmptyLevel<T>(cache: Cache<T>, d: nat, hash: T) returns (ok: bool)
    modifies cache
    ensures Executed(cache, EmptyLevelWrites(d, hash), ok)
  {
    RunCons(cache.Tree(), SetEmpty(d, hash), [SetLevel(d, [hash])], Reach(cache.redis));
    ok := cache.Set(SetEmpty(d, hash));
    if !ok { return; }
    RunCons(cache.Tree(), SetLevel(d, [hash]), [], Reach(cache.redis));
    ok := cache.Set(SetLevel(d, [hash]));
  }

  /** The two writes that end both operations: the root, then the size. */
  method WriteRootAndSize<T>(cache: Cache<T>, root: T, size: nat) returns (ok: bool)
    modifies cache
    ensures Executed(cache, [SetRoot(root), SetSize(size)], ok)
    ensures ok ==> cache.root == Some(root)
  {
    RunCons(cache.Tree(), SetRoot(root), [SetSize(size)], Reach(cache.redis));
    ok := cache.Set(SetRoot(root));
    if !ok { return; }
    RunCons(cache.Tree(), SetSize(size), [], Reach(cache.redis));
    ok := cache.Set(SetSize(size));
  }

  /** The other child of the same parent: stored, or the empty hash of its level. */
  method ReadSibling<T>(H: Hasher<T>, cache: Cache<T>, level: seq<T>, idx: nat, d: nat) returns (sibling: T)
    ensures sibling == SiblingValue(H, cache.Tree(), level, idx, d)
  {
    var siblingIdx := if idx % 2 == 0 then idx + 1 else idx - 1;
    sibling := if siblingIdx < |level| then level[siblingIdx]
               else if d in cache.empties then cache.empties[d] else H.empty;
  }

  /** One round of the loop in `add_leaf`: level d + 1 with the parent of entry `idx` rehashed. */
  method ParentLevel<T>(H: Hasher<T>, cache: Cache<T>, currentLevel: seq<T>, idx: nat, d: nat)
    returns (nextLevel: seq<T>, ghost calls: nat)
    requires idx < |currentLevel|
    ensures calls == 1
    ensures nextLevel == NextLevel(H, cache.Tree(), currentLevel, idx, d)
  {
    var sibling := ReadSibling(H, cache, currentLevel, idx, d);
    var currentHash := currentLevel[idx];
    var left, right := sibling, currentHash;
    if idx % 2 == 0 {
      left, right := currentHash, sibling;
    }
    var parent := H.hash(left, right);
    calls := 1;

    nextLevel := if d + 1 in cache.levels then cache.levels[d + 1] else [H.empty];
    var parentIdx := idx / 2;
    var empty := if d + 1 in cache.empties then cache.empties[d + 1] else H.empty;
    nextLevel := PadLevel(nextLevel, parentIdx, empty);
    nextLevel := nextLevel[parentIdx := parent];
  }

  /** One round and its write, which is the first of `rest` and part of the longer list `ws`. */
  method WriteParent<T>(H: Hasher<T>, cache: Cache<T>, currentLevel: seq<T>, idx: nat, d: nat, depth: nat, size: nat,
      ghost t0: Tree<T>, ghost r0: Redis, ghost ws: seq<Write<T>>, ghost rest: seq<Write<T>>)
    returns (nextLevel: seq<T>, ok: bool, ghost calls: nat, ghost after: seq<Write<T>>)
    requires idx < |currentLevel| && d < depth
    requires rest == PathWrites(H, cache.Tree(), currentLevel, idx, d, depth, size)
    requires Halfway(t0, r0, ws, cache.Tree(), cache.redis, rest)
    modifies cache
    ensures idx / 2 < |nextLevel| && calls == 1
    ensures cache.lastSignature == old(cache.lastSignature)
    ensures if ok then && after == PathWrites(H, cache.Tree(), nextLevel, idx / 2, d + 1, depth, size)
                       && Halfway(t0, r0, ws, cache.Tree(), cache.redis, after)
            else && cache.Tree() == Run(t0, ws, Reach(r0))
                 && !Lasts(r0, |ws|) && cache.redis == After(r0, |ws|)
  {
    nextLevel, calls := ParentLevel(H, cache, currentLevel, idx, d);
    ghost var w := SetLevel(d + 1, nextLevel);
    after := PathWrites(H, Apply(cache.Tree(), w), nextLevel, idx / 2, d + 1, depth, size);
    assert rest == [w] + after;
    HalfwayWrite(t0, r0, ws, cache.Tree(), cache.redis, w, after);
    ok := cache.Set(SetLevel(d + 1, nextLevel));
  }

  /** The loop of `add_leaf` from the written leaf to the root, and the two writes after it. */
  method UpdatePath<T>(H: Hasher<T>, cache: Cache<T>, level0: seq<T>, leafIndex: nat, depth: nat)
    returns (result: Option<T>, ghost calls: nat)
    requires leafIndex < |level0|
    modifies cache
    ensures Executed(cache, PathWrites(H, old(cache.Tree()), level0, leafIndex, 0, depth, leafIndex), result.Some?)
    ensures result.Some? ==> cache.root == result && calls == depth
  {
    calls := 0;
    ghost var t0, r0 := cache.Tree(), cache.redis;
    ghost var ws := PathWrites(H, t0, level0, leafIndex, 0, depth, leafIndex);
    ghost var rest := ws;
    var idx: nat := leafIndex;
    var currentLevel := level0;
    for d := 0 to depth
      invariant idx < |currentLevel|
      invariant calls == d
      invariant rest == PathWrites(H, cache.Tree(), currentLevel, idx, d, depth, leafIndex)
      invariant Halfway(t0, r0, ws, cache.Tree(), cache.redis, rest)
      invariant cache.lastSignature == old(cache.lastSignature)
    {
      var nextLevel, ok;
      ghost var evaluations;
      nextLevel, ok, evaluations, rest := WriteParent(H, cache, currentLevel, idx, d, depth, leafIndex, t0, r0, ws,
          rest);
      calls := calls + evaluations;
      if !ok { return None, calls; }

      currentLevel := nextLevel;
      idx := idx / 2;
    }

    var root := currentLevel[0];
    var ok := WriteRootAndSize(cache, root, leafIndex + 1);
    return if ok then Some(root) else None, calls;
  }

  /**
   Returns the new root, or the current one if `leafIndex` is not the next index; nothing if a
   write failed. `calls` counts the Poseidon2 evaluations.
   */
  method AddLeaf<T>(H: Hasher<T>, cache: Cache<T>, leafIndex: nat, commitment: T, depth: nat)
    returns (result: Option<T>, ghost calls: nat)
    modifies cache
    ensures Executed(cache, AddLeafWrites(H, old(cache.Tree()), leafIndex, commitment, depth), result.Some?)
    ensures result.Some? ==> result.value == GetRoot(H, cache.Tree())
    ensures result.Some? ==> calls == if leafIndex == GetSize(old(cache.Tree())) then depth else 0
  {
    var size := cache.size.GetOr(0);
    if leafIndex != size {
      return Some(cache.root.GetOr(H.empty)), 0;
    }

    var level0 := if 0 in cache.levels then cache.levels[0] else [H.empty];
    level0 := PadLevel(level0, leafIndex, H.empty);
    level0 := level0[leafIndex := commitment];

    ghost var rest := PathWrites(H, Apply(cache.Tree(), SetLevel(0, level0)), level0, leafIndex, 0, depth, size);
    RunCons(cache.Tree(), SetLevel(0, level0), rest, Reach(cache.redis));
    var ok := cache.Set(SetLevel(0, level0));
    if !ok { return None, 0; }
    result, calls := UpdatePath(H, cache, level0, leafIndex, depth);
  }

  /** The loop that pushes the empty hash until index `n` exists. */
  method PadLevel<T>(level: seq<T>, n: nat, empty: T) returns (padded: seq<T>)
    ensures padded == Pad(level, n, empty)
  {
    padded := level;
    while |padded| <= n
      invariant Pad(padded, n, empty) == Pad(level, n, empty)
    {
      padded := padded + [empty];
    }
  }

  method GetProof<T>(H: Hasher<T>, cache: Cache<T>, leafIndex: nat, depth: nat)
    returns (proof: seq<T>, isEven: seq<bool>, root: T)
    ensures proof == StoredProof(H, cache.Tree(), leafIndex, depth)
    ensures isEven == Flags(leafIndex, depth)
    ensures root == GetRoot(H, cache.Tree())
  {
    proof, isEven := [], [];
    var idx := leafIndex;
    for d := 0 to depth
      invariant idx == Ancestor(leafIndex, d)
      invariant proof == StoredProof(H, cache.Tree(), leafIndex, d)
      invariant isEven == Flags(leafIndex, d)
    {
      var level := if d in cache.levels then cache.levels[d] else [H.empty];
      var sibling := ReadSibling(H, cache, level, idx, d);
      StoredProofGrows(H, cache.Tree(), leafIndex, d);
      proof := proof + [sibling];
      isEven := isEven + [idx % 2 == 0];
      idx := idx / 2;
    }
    root := cache.root.GetOr(H.empty);
  }
}
