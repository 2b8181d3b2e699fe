/** The three tables of the backend (app/backend/src/db.rs, migrations/001_init.sql) for one pool. */
module Database {
  import opened Wrappers
  import opened Events
  import opened TreeStore

  datatype RootRow<+T> = RootRow(root: T, leafIndex: i64)

  datatype NullifierRow = NullifierRow(recipient: Pubkey, amount: i64)

  /** `leaf_index` and `nullifier_hash` are unique keys; the roots table has none but its serial. */
  datatype Tables<T> = Tables(commitments: map<i64, T>, roots: seq<RootRow<T>>, nullifiers: map<T, NullifierRow>)

  function InsertDeposit<T>(t: Tables<T>, leafIndex: i64, commitment: T, newRoot: T): Tables<T> {
    Tables(if leafIndex in t.commitments then t.commitments else t.commitments[leafIndex := commitment],
           t.roots + [RootRow(newRoot, leafIndex)],
           t.nullifiers)
  }

  function InsertNullifier<T>(t: Tables<T>, nullifierHash: T, row: NullifierRow): Tables<T> {
    if nullifierHash in t.nullifiers then t else t.(nullifiers := t.nullifiers[nullifierHash := row])
  }

  /** The root row added last. */
  function LatestRoot<T>(t: Tables<T>): Option<T> {
    if |t.roots| == 0 then None else Some(t.roots[|t.roots| - 1].root)
  }

  /** A row that is there stays as it is; the others stay too; the root row is added in any case. */
  lemma InsertsKeepRows<T>(t: Tables<T>, leafIndex: i64, commitment: T, newRoot: T, nullifierHash: T, row: NullifierRow)
    ensures var d, n := InsertDeposit(t, leafIndex, commitment, newRoot), InsertNullifier(t, nullifierHash, row);
            && d.commitments.Keys == t.commitments.Keys + {leafIndex}
            && (forall i <- t.commitments :: d.commitments[i] == t.commitments[i])
            && (leafIndex !in t.commitments ==> d.commitments[leafIndex] == commitment)
            && d.roots == t.roots + [RootRow(newRoot, leafIndex)] && d.nullifiers == t.nullifiers
            && n.nullifiers.Keys == t.nullifiers.Keys + {nullifierHash}
            && (forall i <- t.nullifiers :: n.nullifiers[i] == t.nullifiers[i])
            && (nullifierHash !in t.nullifiers ==> n.nullifiers[nullifierHash] == row)
            && n.commitments == t.commitments && n.roots == t.roots
  {
  }

  /** Saving a nullifier again changes nothing; saving a deposit again always adds one more root row, and only that. */
  lemma RepeatedInserts<T>(t: Tables<T>, leafIndex: i64, commitment: T, newRoot: T, nullifierHash: T, row: NullifierRow)
    ensures var once := InsertNullifier(t, nullifierHash, row);
            InsertNullifier(once, nullifierHash, row) == once
    ensures var once := InsertDeposit(t, leafIndex, commitment, newRoot);
            var twice := InsertDeposit(once, leafIndex, commitment, newRoot);
            && twice != once
            && twice == once.(roots := once.roots + [RootRow(newRoot, leafIndex)])
  {
    var once := InsertDeposit(t, leafIndex, commitment, newRoot);
    assert |InsertDeposit(once, leafIndex, commitment, newRoot).roots| == |once.roots| + 1;
  }

  ghost predicate IsLast(k: i64, keys: set<i64>) {
    k in keys && forall j <- keys :: j <= k
  }

  lemma {:induction false} LastExists(keys: set<i64>)
    requires keys != {}
    ensures exists k :: IsLast(k, keys)
  {
    var k :| k in keys;
    if keys == {k} {
      assert IsLast(k, keys);
    } else {
      LastExists(keys - {k});
      var m :| IsLast(m, keys - {k});
      var last := if k < m then m else k;
      forall j <- keys ensures j <= last {
        if j != k { assert j in keys - {k}; }
      }
      assert IsLast(last, keys);
    }
  }

  /** The commitments table in the order of its leaf indices. */
  ghost function OrderedRows<T>(m: map<i64, T>): seq<Row<T>>
    decreases m.Keys
  {
    if m == map[] then []
    else
      LastExists(m.Keys);
      var k :| IsLast(k, m.Keys);
      OrderedRows(m - {k}) + [Row(k, m[k])]
  }

  /** The rows are those of the table, each once, in ascending order of their leaf index, gaps or not. */
  ghost predicate Lists<T>(rows: seq<Row<T>>, m: map<i64, T>) {
    && |rows| == |m|
    && (forall i | 0 <= i < |rows| :: rows[i].leafIndex in m && rows[i].commitment == m[rows[i].leafIndex])
    && (forall i, j | 0 <= i < j < |rows| :: rows[i].leafIndex < rows[j].leafIndex)
  }

  lemma {:induction false} OrderedRowsList<T>(m: map<i64, T>)
    ensures Lists(OrderedRows(m), m)
    decreases m.Keys
  {
    if m != map[] {
      LastExists(m.Keys);
      var k: i64 :| IsLast(k, m.Keys) && OrderedRows(m) == OrderedRows(m - {k}) + [Row(k, m[k])];
      OrderedRowsList(m - {k});
      assert (m - {k}).Keys == m.Keys - {k};
      assert |(m - {k}).Keys| == |m.Keys| - 1;
    }
  }

  /** Nothing is left out: every item of the table is a row. */
  lemma {:induction false} EveryItemListed<T>(m: map<i64, T>, k: i64)
    requires k in m
    ensures Row(k, m[k]) in OrderedRows(m)
    decreases m.Keys
  {
    LastExists(m.Keys);
    var last: i64 :| IsLast(last, m.Keys) && OrderedRows(m) == OrderedRows(m - {last}) + [Row(last, m[last])];
    if k != last {
      EveryItemListed(m - {last}, k);
    }
  }

  /** The table that holds the list `c` without a gap. */
  function TableOf<T>(c: seq<T>): map<i64, T> {
    map i: i64 | 0 <= i < |c| :: c[i]
  }

  lemma {:induction false} OrderedRowsOfTable<T>(c: seq<T>, i: nat)
    requires |c| <= 0x8000_0000_0000_0000
    ensures |OrderedRows(TableOf(c))| == |c|
    ensures i < |c| ==> OrderedRows(TableOf(c))[i] == Row(i, c[i])
    decreases |c|
  {
    var t := TableOf(c);
    if |c| == 0 {
      assert t == map[];
    } else {
      var m: i64 := |c| - 1;
      assert m in t.Keys;
      var k: i64 :| IsLast(k, t.Keys) && OrderedRows(t) == OrderedRows(t - {k}) + [Row(k, t[k])];
      assert IsLast(k, t.Keys);
      assert k in t.Keys;
      assert m <= k;
      assert t - {k} == TableOf(c[..m]);
      OrderedRowsOfTable(c[..m], i);
    }
  }

  class Db<T(==)> {
    var commitments: map<i64, T>
    var roots: seq<RootRow<T>>
    var nullifiers: map<T, NullifierRow>

    constructor ()
      ensures Contents() == Tables(map[], [], map[])
    {
      commitments, roots, nullifiers := map[], [], map[];
    }

    function Contents(): Tables<T>
      reads this
    {
      Tables(commitments, roots, nullifiers)
    }

    /** One transaction: both inserts or none. A second root row for the same leaf is not refused. */
    method SaveDeposit(leafIndex: i64, commitment: T, newRoot: T)
      modifies this
      ensures Contents() == InsertDeposit(old(Contents()), leafIndex, commitment, newRoot)
    {
      if leafIndex !in commitments {
        commitments := commitments[leafIndex := commitment];
      }
      roots := roots + [RootRow(newRoot, leafIndex)];
    }

    method SaveNullifier(nullifierHash: T, recipient: Pubkey, amount: i64)
      modifies this
      ensures Contents() == InsertNullifier(old(Contents()), nullifierHash, NullifierRow(recipient, amount))
    {
      if nullifierHash !in nullifiers {
        nullifiers := nullifiers[nullifierHash := NullifierRow(recipient, amount)];
      }
    }

    method CommitmentExists(leafIndex: i64) returns (found: bool)
      ensures found <==> leafIndex in commitments
    {
      found := leafIndex in commitments;
    }

    method IsNullifierUsed(nullifierHash: T) returns (used: bool)
      ensures used <==> nullifierHash in nullifiers
    {
      used := nullifierHash in nullifiers;
    }

    method GetCommitments() returns (rows: seq<Row<T>>)
      ensures rows == OrderedRows(commitments)
      ensures Lists(rows, commitments)
    {
      OrderedRowsList(commitments);
      rows := [];
      var rest := commitments;
      while rest != map[]
        invariant OrderedRows(rest) + rows == OrderedRows(commitments)
        decreases rest.Keys
      {
        LastExists(rest.Keys);
        var k :| k in rest.Keys && forall j <- rest.Keys :: j <= k;
        assert IsLast(k, rest.Keys);
        rows := [Row(k, rest[k])] + rows;
        rest := rest - {k};
      }
    }

    method GetLatestRoot() returns (root: Option<T>)
      ensures root == LatestRoot(Contents())
    {
      root := if |roots| == 0 then None else Some(roots[|roots| - 1].root);
    }
  }
}
