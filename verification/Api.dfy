/** The two read endpoints that answer from the tree (app/backend/src/main.rs). */
module Api {
  import opened Wrappers
  import opened Merkle
  import opened TreeStore
  import opened TreeCache
  import opened Incremental
  import opened Database

  /** `/api/root`: the stored root, or the latest root row if Redis fails or has none. */
  function RootAnswer<T>(t: Tree<T>, db: Tables<T>, redisAnswers: bool): Option<T> {
    if redisAnswers && t.root.Some? then t.root else LatestRoot(db)
  }

  /** The two endpoints never contradict each other: a root that comes with a proof is the one `/api/root` answers. */
  lemma EndpointsAgree<T>(H: Hasher<T>, t: Tree<T>, db: Tables<T>)
    ensures GetRoot(H, t) != H.empty ==> RootAnswer(t, db, true) == Some(GetRoot(H, t))
  {
  }

  method HandleRoot<T>(cache: Cache<T>, db: Db<T>, redisAnswers: bool) returns (root: Option<T>)
    ensures root == RootAnswer(cache.Tree(), db.Contents(), redisAnswers)
  {
    if redisAnswers && cache.root.Some? {
      return cache.root;
    }
    root := db.GetLatestRoot();
  }

  datatype ProofAnswer<T> = ProofAnswer(proof: seq<T>, isEven: seq<bool>, root: T)

  /** `/api/proof`: nothing if the root is the empty value, which also stands for a missing one. */
  method HandleProof<T(==)>(H: Hasher<T>, cache: Cache<T>, leafIndex: nat, depth: nat)
    returns (answer: Option<ProofAnswer<T>>)
    ensures var t := cache.Tree();
            var found := ProofAnswer(StoredProof(H, t, leafIndex, depth), Flags(leafIndex, depth), GetRoot(H, t));
            answer == if GetRoot(H, t) == H.empty then None else Some(found)
  {
    var proof, isEven, root := GetProof(H, cache, leafIndex, depth);
    return if root == H.empty then None else Some(ProofAnswer(proof, isEven, root));
  }
}
