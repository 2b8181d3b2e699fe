/**
 What `add_leaf` (app/backend/src/tree.rs) does to a store that lost its keys while the
 backend was running, before the next start could initialise it.
 */
module RedisLoss {
  import opened Wrappers
  import opened Merkle
  import opened TreeStore
  import opened CrashRecovery
  import opened Incremental

  /** No root and no size: `add_leaf` takes only leaf 0, which has been indexed already or finds nothing stored. */
  ghost predicate Awaits<T>(t: Tree<T>, c: seq<T>) {
    t.root.None? && GetSize(t) == 0 && (|c| > 0 || t == EmptyStore())
  }

  /** What a running backend may find in Redis, `c` being the commitments in the database. */
  ghost predicate Usable<T>(H: Hasher<T>, t: Tree<T>, c: seq<T>, depth: nat) {
    Awaits(t, c) || Between(H, t, c, depth)
  }

  /** A root, but no empty hashes: startup takes the store for an initialised one. */
  predicate Spoilt<T(==)>(t: Tree<T>) {
    t.root.Some? && t.empties == map[]
  }

  /** The root `add_leaf` computes for leaf 0 when every missing sibling is read as the empty leaf. */
  function Bare<T>(H: Hasher<T>, x: T, d: nat): T {
    if d == 0 then x else H.hash(Bare(H, x, d - 1), H.empty)
  }

  lemma SpoiltIsNotRecoverable<T>(H: Hasher<T>, t: Tree<T>, c: seq<T>, depth: nat)
    requires Spoilt(t)
    ensures !Recoverable(H, t, c, depth) && !Usable(H, t, c, depth)
  {
    assert 0 !in t.empties;
  }

  // ---------- a spoilt store stays spoilt ----------

  /** Only initialisation writes empty hashes. */
  predicate NoEmpties<T>(ws: seq<Write<T>>) {
    forall i | 0 <= i < |ws| :: !ws[i].SetEmpty?
  }

  lemma {:induction false} RunKeepsSpoilt<T>(t: Tree<T>, ws: seq<Write<T>>, k: nat)
    requires Spoilt(t) && NoEmpties(ws)
    ensures Spoilt(Run(t, ws, k))
    decreases |ws|
  {
    if |ws| > 0 && k > 0 {
      RunKeepsSpoilt(Apply(t, ws[0]), ws[1..], k - 1);
    }
  }

  lemma {:induction false} PathHasNoEmpties<T>(H: Hasher<T>, t: Tree<T>, level: seq<T>, idx: nat, d: nat, depth: nat,
      size: nat)
    requires idx < |level| && d <= depth
    ensures NoEmpties(PathWrites(H, t, level, idx, d, depth, size))
    decreases depth - d
  {
    if d < depth {
      var w := SetLevel(d + 1, NextLevel(H, t, level, idx, d));
      PathHasNoEmpties(H, Apply(t, w), w.hashes, idx / 2, d + 1, depth, size);
    }
  }

  lemma {:induction false} AddLeafKeepsSpoilt<T>(H: Hasher<T>, t: Tree<T>, leafIndex: nat, x: T, depth: nat, k: nat)
    requires Spoilt(t)
    ensures Spoilt(Run(t, AddLeafWrites(H, t, leafIndex, x, depth), k))
  {
    if leafIndex == GetSize(t) {
      var w := SetLevel(0, NewLevel0(H, t, leafIndex, x));
      PathHasNoEmpties(H, Apply(t, w), w.hashes, leafIndex, 0, depth, leafIndex);
    }
    RunKeepsSpoilt(t, AddLeafWrites(H, t, leafIndex, x, depth), k);
  }

  lemma {:induction false} SyncKeepsSpoilt<T>(H: Hasher<T>, t: Tree<T>, rows: seq<Row<T>>, from: nat, depth: nat,
      k: nat)
    requires Spoilt(t)
    ensures Spoilt(Run(t, SyncWrites(H, t, rows, from, depth), k))
    decreases |rows| - from
  {
    if from < |rows| {
      var index, x := AsUsize(rows[from].leafIndex), rows[from].commitment;
      var ws := AddLeafWrites(H, t, index, x, depth);
      AddLeafKeepsSpoilt(H, t, index, x, depth, k);
      AddLeafKeepsSpoilt(H, t, index, x, depth, |ws|);
      RunConcat(t, ws, SyncWrites(H, Finish(t, ws), rows, from + 1, depth), k);
      SyncKeepsSpoilt(H, Finish(t, ws), rows, from + 1, depth, if k <= |ws| then 0 else k - |ws|);
    }
  }

  lemma {:induction false} SyncHasNoEmpties<T>(H: Hasher<T>, t: Tree<T>, rows: seq<Row<T>>, from: nat, depth: nat)
    ensures NoEmpties(SyncWrites(H, t, rows, from, depth))
    decreases |rows| - from
  {
    if from < |rows| {
      var index, x := AsUsize(rows[from].leafIndex), rows[from].commitment;
      var ws := AddLeafWrites(H, t, index, x, depth);
      if index == GetSize(t) {
        var w := SetLevel(0, NewLevel0(H, t, index, x));
        PathHasNoEmpties(H, Apply(t, w), w.hashes, index, 0, depth, index);
      }
      SyncHasNoEmpties(H, Finish(t, ws), rows, from + 1, depth);
    }
  }

  /** Startup writes empty hashes exactly into a store that has neither a root nor a leaf. */
  lemma {:induction false} StartupInitialisesExactly<T>(H: Hasher<T>, t: Tree<T>, rows: seq<Row<T>>, depth: nat)
    ensures NoEmpties(StartupWrites(H, t, rows, depth)) <==> t.root.Some? || GetSize(t) > 0
  {
    var init := StartupInit(H, t, depth);
    var t1 := Finish(t, init);
    SyncHasNoEmpties(H, t1, rows, GetSize(t1), depth);
    if |init| > 0 {
      assert StartupWrites(H, t, rows, depth)[0] == SetEmpty(0, H.empty);
    }
  }

  /** Startup sees a root and does not initialise, so it never repairs the store. */
  lemma {:induction false} StartupKeepsSpoilt<T>(H: Hasher<T>, t: Tree<T>, rows: seq<Row<T>>, depth: nat, k: nat)
    requires Spoilt(t)
    ensures Spoilt(Run(t, StartupWrites(H, t, rows, depth), k))
  {
    SyncKeepsSpoilt(H, t, rows, GetSize(t), depth, k);
    assert StartupWrites(H, t, rows, depth) == SyncWrites(H, t, rows, GetSize(t), depth);
  }

  // ---------- leaf 0 on an empty store ----------

  /** From level `d` upwards, nothing being stored above it. */
  lemma {:induction false} BarePath<T>(H: Hasher<T>, t: Tree<T>, x: T, d: nat, depth: nat, k: nat)
    requires d <= depth
    requires t.root.None? && t.size.None? && t.empties == map[] && forall e: nat | e > d :: e !in t.levels
    ensures var ws := PathWrites(H, t, [Bare(H, x, d)], 0, d, depth, 0);
            var t' := Run(t, ws, k);
            && t'.empties == map[]
            && t'.root == (if k <= depth - d then None else Some(Bare(H, x, depth)))
            && t'.size == (if k <= depth - d + 1 then None else Some(1))
    decreases depth - d
  {
    var level := [Bare(H, x, d)];
    if d == depth {
      RunTwo(t, SetRoot(level[0]), SetSize(1), [], k);
      assert [SetRoot(level[0]), SetSize(1)] + [] == PathWrites(H, t, level, 0, d, depth, 0);
    } else {
      var w := SetLevel(d + 1, NextLevel(H, t, level, 0, d));
      assert w.hashes == [Bare(H, x, d + 1)];
      BarePath(H, Apply(t, w), x, d + 1, depth, if k == 0 then 0 else k - 1);
      RunCons(t, w, PathWrites(H, Apply(t, w), w.hashes, 0, d + 1, depth, 0), k);
    }
  }

  /** Leaf 0 added to an empty store: nothing that startup would see before the root, spoilt from the root on. */
  lemma {:induction false} FirstLeaf<T>(H: Hasher<T>, x: T, depth: nat, k: nat)
    ensures var t := Run(EmptyStore(), AddLeafWrites(H, EmptyStore(), 0, x, depth), k);
            if k < depth + 2 then t.root.None? && t.size.None?
            else Spoilt(t) && t.root == Some(Bare(H, x, depth)) && GetSize(t) == if k == depth + 2 then 0 else 1
  {
    var t := EmptyStore<T>();
    var w := SetLevel(0, NewLevel0(H, t, 0, x));
    assert w.hashes == [Bare(H, x, 0)];
    BarePath(H, Apply(t, w), x, 0, depth, if k == 0 then 0 else k - 1);
    RunCons(t, w, PathWrites(H, Apply(t, w), w.hashes, 0, 0, depth, 0), k);
  }

  /** The root left behind is the right one only for trees of at most two leaves. */
  lemma {:induction false} BareRootExact<T(!new)>(H: Hasher<T>, x: T, depth: nat)
    requires Injective(H) && NeverEmpty(H)
    ensures Bare(H, x, depth) == Root(H, [x], depth) <==> depth <= 1
  {
    if depth > 0 {
      var z := Node(H, [x], depth - 1, 1);
      assert Root(H, [x], depth) == H.hash(Root(H, [x], depth - 1), z);
      if depth == 1 {
        assert z == H.empty;
      } else {
        assert z == H.hash(Node(H, [x], depth - 2, 2), Node(H, [x], depth - 2, 3));
        assert z != H.empty;
      }
    }
  }
}
