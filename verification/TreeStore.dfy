/**
 What the incremental tree keeps in Redis (app/backend/src/cache.rs) and, for every
 tree operation (app/backend/src/tree.rs, main.rs), the list of keys it writes, in
 order. An operation that is stopped early is a prefix of its list.
 */
module TreeStore {
  import opened Wrappers
  import opened Merkle
  import opened Events

  /** The `tree:{pool}:...` keys: `level:{d}`, `empty:{d}`, `root` and `size`. */
  datatype Tree<T> = Tree(levels: map<nat, seq<T>>, empties: map<nat, T>, root: Option<T>, size: Option<nat>)

  /** One SET command. */
  datatype Write<T> =
    | SetLevel(d: nat, hashes: seq<T>)
    | SetEmpty(d: nat, hash: T)
    | SetRoot(root: T)
    | SetSize(size: nat)

  function Apply<T>(t: Tree<T>, w: Write<T>): Tree<T> {
    match w
    case SetLevel(d, hashes) => t.(levels := t.levels[d := hashes])
    case SetEmpty(d, hash) => t.(empties := t.empties[d := hash])
    case SetRoot(root) => t.(root := Some(root))
    case SetSize(size) => t.(size := Some(size))
  }

  /** The store after the first `k` writes of `ws`. */
  function Run<T>(t: Tree<T>, ws: seq<Write<T>>, k: nat): Tree<T>
    decreases |ws|
  {
    if |ws| == 0 || k == 0 then t else Run(Apply(t, ws[0]), ws[1..], k - 1)
  }

  function Finish<T>(t: Tree<T>, ws: seq<Write<T>>): Tree<T> {
    Run(t, ws, |ws|)
  }

  function GetSize<T>(t: Tree<T>): nat {
    t.size.GetOr(0)
  }

  function GetLevel<T>(H: Hasher<T>, t: Tree<T>, d: nat): seq<T> {
    if d in t.levels then t.levels[d] else [H.empty]
  }

  function GetEmpty<T>(H: Hasher<T>, t: Tree<T>, d: nat): T {
    if d in t.empties then t.empties[d] else H.empty
  }

  function GetRoot<T>(H: Hasher<T>, t: Tree<T>): T {
    t.root.GetOr(H.empty)
  }

  /** Push `e` until index `n` exists. */
  function Pad<T>(s: seq<T>, n: nat, e: T): (r: seq<T>)
    ensures |r| == if |s| > n then |s| else n + 1
    ensures s <= r
    ensures forall i | |s| <= i < |r| :: r[i] == e
    decreases n + 1 - |s|
  {
    if |s| > n then s else Pad(s + [e], n, e)
  }

  // ---------- init_empty_tree ----------

  function EmptyLevelWrites<T>(d: nat, hash: T): seq<Write<T>> {
    [SetEmpty(d, hash), SetLevel(d, [hash])]
  }

  function InitFrom<T>(H: Hasher<T>, d: nat, current: T, depth: nat): seq<Write<T>>
    requires d <= depth + 1
    decreases depth + 1 - d
  {
    if d == depth + 1 then [SetRoot(current), SetSize(0)]
    else
      var next := H.hash(current, current);
      EmptyLevelWrites(d, next) + InitFrom(H, d + 1, next, depth)
  }

  function InitWrites<T>(H: Hasher<T>, depth: nat): seq<Write<T>> {
    EmptyLevelWrites(0, H.empty) + InitFrom(H, 1, H.empty, depth)
  }

  // ---------- add_leaf ----------

  function SiblingValue<T>(H: Hasher<T>, t: Tree<T>, level: seq<T>, idx: nat, d: nat): T {
    if Sibling(idx) < |level| then level[Sibling(idx)] else GetEmpty(H, t, d)
  }

  /** Level d + 1 with the parent of entry `idx` of level d recomputed. */
  function NextLevel<T>(H: Hasher<T>, t: Tree<T>, level: seq<T>, idx: nat, d: nat): (next: seq<T>)
    requires idx < |level|
    ensures idx / 2 < |next|
  {
    var parent := Combine(H, level[idx], SiblingValue(H, t, level, idx, d), idx % 2 == 0);
    Pad(GetLevel(H, t, d + 1), idx / 2, GetEmpty(H, t, d + 1))[idx / 2 := parent]
  }

  /** The writes of `add_leaf` from level `d` upwards, `level` being level d with the new entry in it. */
  function PathWrites<T>(H: Hasher<T>, t: Tree<T>, level: seq<T>, idx: nat, d: nat, depth: nat,
      size: nat): (ws: seq<Write<T>>)
    requires idx < |level|
    requires d <= depth
    ensures |ws| == depth - d + 2
    decreases depth - d
  {
    if d == depth then [SetRoot(level[0]), SetSize(size + 1)]
    else
      var w := SetLevel(d + 1, NextLevel(H, t, level, idx, d));
      [w] + PathWrites(H, Apply(t, w), w.hashes, idx / 2, d + 1, depth, size)
  }

  function NewLevel0<T>(H: Hasher<T>, t: Tree<T>, leafIndex: nat, commitment: T): (level: seq<T>)
    ensures leafIndex < |level|
  {
    Pad(GetLevel(H, t, 0), leafIndex, H.empty)[leafIndex := commitment]
  }

  function AddLeafWrites<T>(H: Hasher<T>, t: Tree<T>, leafIndex: nat, commitment: T, depth: nat): seq<Write<T>> {
    if leafIndex != GetSize(t) then []
    else
      var w := SetLevel(0, NewLevel0(H, t, leafIndex, commitment));
      [w] + PathWrites(H, Apply(t, w), w.hashes, leafIndex, 0, depth, leafIndex)
  }

  // ---------- startup ----------

  /** Rust's `i64 as usize` on a 64-bit target. */
  function AsUsize(i: i64): nat {
    if i < 0 then i + 0x1_0000_0000_0000_0000 else i
  }

  /** The cast keeps the 64 bits, so a negative index becomes one that no tree reaches. */
  lemma AsUsizeExact(i: i64)
    ensures 0 <= AsUsize(i) < 0x1_0000_0000_0000_0000
    ensures AsUsize(i) % 0x1_0000_0000_0000_0000 == i % 0x1_0000_0000_0000_0000
    ensures AsUsize(i) < 0x8000_0000_0000_0000 <==> i >= 0
  {
  }

  /** A row of `get_commitments`: leaf index and commitment. */
  datatype Row<T> = Row(leafIndex: i64, commitment: T)

  function SyncWrites<T>(H: Hasher<T>, t: Tree<T>, rows: seq<Row<T>>, from: nat, depth: nat): seq<Write<T>>
    decreases |rows| - from
  {
    if from >= |rows| then []
    else
      var ws := AddLeafWrites(H, t, AsUsize(rows[from].leafIndex), rows[from].commitment, depth);
      ws + SyncWrites(H, Finish(t, ws), rows, from + 1, depth)
  }

  function StartupInit<T>(H: Hasher<T>, t: Tree<T>, depth: nat): seq<Write<T>> {
    if GetSize(t) == 0 && t.root.None? then InitWrites(H, depth) else []
  }

  /** `main`: initialise if there is no root, then add the rows the tree lacks. */
  function StartupWrites<T>(H: Hasher<T>, t: Tree<T>, rows: seq<Row<T>>, depth: nat): seq<Write<T>> {
    var init := StartupInit(H, t, depth);
    var t1 := Finish(t, init);
    init + SyncWrites(H, t1, rows, GetSize(t1), depth)
  }

  // ---------- running writes ----------

  lemma {:induction false} RunConcat<T>(t: Tree<T>, a: seq<Write<T>>, b: seq<Write<T>>, k: nat)
    ensures Run(t, a + b, k) == if k <= |a| then Run(t, a, k) else Run(Finish(t, a), b, k - |a|)
    decreases |a|
  {
    if |a| == 0 {
      assert a + b == b;
    } else if k > 0 {
      assert (a + b)[1..] == a[1..] + b;
      RunConcat(Apply(t, a[0]), a[1..], b, k - 1);
    }
  }

  lemma {:induction false} RunPastEnd<T>(t: Tree<T>, ws: seq<Write<T>>, k: nat)
    requires k >= |ws|
    ensures Run(t, ws, k) == Finish(t, ws)
    decreases |ws|
  {
    if |ws| > 0 {
      RunPastEnd(Apply(t, ws[0]), ws[1..], k - 1);
    }
  }

  /** One more write: the head of the remaining list. */
  lemma {:induction false} RunCons<T>(t: Tree<T>, w: Write<T>, ws: seq<Write<T>>, k: nat)
    ensures Run(t, [w] + ws, k) == if k == 0 then t else Run(Apply(t, w), ws, k - 1)
  {
    assert ([w] + ws)[1..] == ws;
  }

  // ---------- a connection that fails and comes back ----------

  /** `writes` commands succeed, then one fails; `lost` if it took effect and only its reply was lost. */
  datatype Stretch = Stretch(writes: nat, lost: bool)

  /** What the connection will do; after the last stretch every command fails. */
  type Redis = seq<Stretch>

  function Head(r: Redis): Stretch {
    if |r| == 0 then Stretch(0, false) else r[0]
  }

  /** The next `n` commands succeed. */
  predicate Lasts(r: Redis, n: nat) {
    n <= Head(r).writes
  }

  /** How many commands of an operation that stops at its first failure take effect at most. */
  function Reach(r: Redis): nat {
    Head(r).writes + if Head(r).lost then 1 else 0
  }

  /** The connection after `n` commands, or fewer if one of them failed. */
  function After(r: Redis, n: nat): Redis {
    if |r| == 0 then r
    else if Lasts(r, n) then r[0 := Stretch(r[0].writes - n, r[0].lost)]
    else r[1..]
  }

  /** A command at the end of a stretch fails; it may have taken effect all the same, and the next stretch begins. */
  lemma {:induction false} CommandFails<T>(t: Tree<T>, w: Write<T>, lost: bool, rest: Redis)
    ensures var r := [Stretch(0, lost)] + rest;
            !Lasts(r, 1) && Run(t, [w], Reach(r)) == (if lost then Apply(t, w) else t) && After(r, 1) == rest
  {
    RunCons(t, w, [], Reach([Stretch(0, lost)] + rest));
    assert [w] + [] == [w];
  }

  /** `ws` started from `t0` on `r0`; now it is at `t` on `r`, and `rest` is still to come. */
  ghost predicate Halfway<T>(t0: Tree<T>, r0: Redis, ws: seq<Write<T>>, t: Tree<T>, r: Redis, rest: seq<Write<T>>) {
    && |rest| <= |ws|
    && Lasts(r0, |ws| - |rest|)
    && r == After(r0, |ws| - |rest|)
    && Run(t0, ws, Reach(r0)) == Run(t, rest, Reach(r))
  }

  lemma {:induction false} HalfwayOn<T>(t0: Tree<T>, r0: Redis, ws: seq<Write<T>>, t: Tree<T>, r: Redis,
      here: seq<Write<T>>, after: seq<Write<T>>)
    requires Halfway(t0, r0, ws, t, r, here + after)
    ensures if Lasts(r, |here|)
            then && Run(t, here, Reach(r)) == Finish(t, here)
                 && Halfway(t0, r0, ws, Finish(t, here), After(r, |here|), after)
            else && Run(t0, ws, Reach(r0)) == Run(t, here, Reach(r))
                 && !Lasts(r0, |ws|) && After(r, |here|) == After(r0, |ws|)
  {
    RunConcat(t, here, after, Reach(r));
    if Lasts(r, |here|) { RunPastEnd(t, here, Reach(r)); }
  }

  /** One command of the operation: whether it takes effect, and whether the operation goes on. */
  lemma {:induction false} HalfwayWrite<T>(t0: Tree<T>, r0: Redis, ws: seq<Write<T>>, t: Tree<T>, r: Redis, w: Write<T>,
      after: seq<Write<T>>)
    requires Halfway(t0, r0, ws, t, r, [w] + after)
    ensures var t' := if Reach(r) > 0 then Apply(t, w) else t;
            if Lasts(r, 1) then Halfway(t0, r0, ws, t', After(r, 1), after)
            else Run(t0, ws, Reach(r0)) == t' && !Lasts(r0, |ws|) && After(r, 1) == After(r0, |ws|)
  {
    HalfwayOn(t0, r0, ws, t, r, [w], after);
    RunCons(t, w, [], Reach(r));
    assert [w] + [] == [w];
  }
}
