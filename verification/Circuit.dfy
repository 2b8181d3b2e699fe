/**
 The withdrawal circuit (app/circuits/withdrawal): Poseidon2 as free terms, the
 Merkle path check, and the relation between public inputs and witness.
 */
module Circuit {
  import opened Bytes
  import opened Merkle

  /**
   A field element is a literal or the first lane of the Poseidon2 permutation of four
   elements. Being free terms, two permutations agree only on the same four inputs and
   none of them is a literal: collision resistance without an axiom.
   */
  datatype Field = Lit(n: nat) | Perm(a: Field, b: Field, c: Field, d: Field)

  const EMPTY_LEAF := Lit(0)

  function Hash1(x: Field): Field { Perm(x, Lit(0), Lit(0), Lit(0)) }

  function Hash2(x: Field, y: Field): Field { Perm(x, y, Lit(0), Lit(0)) }

  function Hash3(x: Field, y: Field, z: Field): Field { Perm(x, y, z, Lit(0)) }

  function Poseidon(): Hasher<Field> {
    Hasher((x, y) => Hash2(x, y), EMPTY_LEAF)
  }

  /** One permutation, padded with zeros: an input that is left out and a zero in its place hash alike. */
  lemma ZeroPadding(x: Field, y: Field)
    ensures Hash3(x, y, Lit(0)) == Hash2(x, y)
    ensures Hash2(x, Lit(0)) == Hash1(x)
  {
  }

  /** A commitment binds nullifier, secret and amount, a nullifier hash its nullifier. */
  lemma HashesBind(n: Field, s: Field, a: Field, n': Field, s': Field, a': Field)
    ensures Hash3(n, s, a) == Hash3(n', s', a') <==> n == n' && s == s' && a == a'
    ensures Hash1(n) == Hash1(n') <==> n == n'
  {
  }

  lemma PoseidonIsIdeal()
    ensures Injective(Poseidon()) && NeverEmpty(Poseidon())
  {
  }

  method ComputeMerkleRoot(leaf: Field, path: seq<Field>, isEven: seq<bool>) returns (current: Field)
    requires |path| == |isEven|
    ensures current == Fold(Poseidon(), leaf, path, isEven)
  {
    current := leaf;
    for i := 0 to |path|
      invariant current == Fold(Poseidon(), leaf, path[..i], isEven[..i])
    {
      var sibling := path[i];
      var left, right := sibling, current;
      if isEven[i] {
        left, right := current, sibling;
      }
      assert path[..i + 1][..i] == path[..i] && isEven[..i + 1][..i] == isEven[..i];
      current := Perm(left, right, Lit(0), Lit(0));
    }
    assert path[..|path|] == path && isEven[..|path|] == isEven;
  }

  method VerifyMerkleProof(leaf: Field, root: Field, path: seq<Field>, isEven: seq<bool>) returns (ok: bool)
    requires |path| == |isEven|
    ensures ok <==> Fold(Poseidon(), leaf, path, isEven) == root
  {
    var computedRoot := ComputeMerkleRoot(leaf, path, isEven);
    ok := computedRoot == root;
  }

  method ComputeEmptyTreeZeros(depth: nat) returns (zeros: seq<Field>)
    ensures |zeros| == depth
    ensures forall i | 0 <= i < depth :: zeros[i] == Zero(Poseidon(), i)
  {
    zeros := seq(depth, _ => Lit(0));
    var current := Lit(0);
    for i := 0 to depth
      invariant current == Zero(Poseidon(), i)
      invariant |zeros| == depth
      invariant forall k | 0 <= k < i :: zeros[k] == Zero(Poseidon(), k)
    {
      zeros := zeros[i := current];
      ZeroStep(i);
      current := Hash2(current, current);
    }
  }

  lemma {:induction false} ZeroStep(i: nat)
    ensures Zero(Poseidon(), i + 1) == Hash2(Zero(Poseidon(), i), Zero(Poseidon(), i))
  {
  }

  /** The recipient is a 32-byte public input that the circuit does not constrain. */
  datatype PublicInputs = PublicInputs(root: Field, nullifierHash: Field, recipient: Bytes32, amount: Field)

  datatype Witness = Witness(nullifier: Field, secret: Field, merkleProof: seq<Field>, isEven: seq<bool>)

  /** All assertions of the circuit's entry point hold. */
  predicate Accepts(depth: nat, pub: PublicInputs, w: Witness) {
    && |w.merkleProof| == |w.isEven| == depth
    && var commitment := Hash3(w.nullifier, w.secret, pub.amount);
    && Hash1(w.nullifier) == pub.nullifierHash
    && Fold(Poseidon(), commitment, w.merkleProof, w.isEven) == pub.root
  }

  /** The witness an honest client builds for leaf `i` of the list `c`. */
  function HonestWitness(depth: nat, c: seq<Field>, i: nat, nullifier: Field, secret: Field): Witness {
    Witness(nullifier, secret, Path(Poseidon(), c, i, depth), Flags(i, depth))
  }

  lemma {:induction false} HonestWitnessAccepted(depth: nat, c: seq<Field>, i: nat, nullifier: Field, secret: Field,
      pub: PublicInputs)
    requires i < |c| && i < Pow2(depth)
    requires c[i] == Hash3(nullifier, secret, pub.amount)
    requires pub.nullifierHash == Hash1(nullifier)
    requires pub.root == Root(Poseidon(), c, depth)
    ensures Accepts(depth, pub, HonestWitness(depth, c, i, nullifier, secret))
  {
    PathFolds(Poseidon(), c, i, depth);
    InRange(i, depth);
  }

  /** What a satisfied circuit proves about the list of leaves behind the root. */
  lemma {:induction false} AcceptedIsMember(depth: nat, c: seq<Field>, pub: PublicInputs, w: Witness)
    requires pub.root == Root(Poseidon(), c, depth)
    requires Accepts(depth, pub, w)
    ensures var i := Descend(w.isEven, 0);
            && i < |c| && i < Pow2(depth)
            && c[i] == Hash3(w.nullifier, w.secret, pub.amount)
            && w == HonestWitness(depth, c, i, w.nullifier, w.secret)
  {
    PoseidonIsIdeal();
    PositionBinding(Poseidon(), c, Hash3(w.nullifier, w.secret, pub.amount), w.merkleProof, w.isEven);
    BindingAt(Poseidon(), c, Hash3(w.nullifier, w.secret, pub.amount), w.merkleProof, w.isEven, 0);
  }

  /** For a given root, nullifier and secret the circuit is satisfiable exactly for the leaves in the tree. */
  lemma {:induction false} CircuitAcceptsExactlyMembers(depth: nat, c: seq<Field>, pub: PublicInputs,
      nullifier: Field, secret: Field)
    requires |c| <= Pow2(depth)
    requires pub.root == Root(Poseidon(), c, depth)
    ensures (exists w: Witness :: w.nullifier == nullifier && w.secret == secret && Accepts(depth, pub, w))
            <==> (pub.nullifierHash == Hash1(nullifier) && Hash3(nullifier, secret, pub.amount) in c)
  {
    if w: Witness :| w.nullifier == nullifier && w.secret == secret && Accepts(depth, pub, w) {
      AcceptedIsMember(depth, c, pub, w);
    }
    if pub.nullifierHash == Hash1(nullifier) && Hash3(nullifier, secret, pub.amount) in c {
      var i: nat :| i < |c| && c[i] == Hash3(nullifier, secret, pub.amount);
      HonestWitnessAccepted(depth, c, i, nullifier, secret, pub);
    }
  }

  /**
   What opens the note of leaf i: exactly its own nullifier, secret, amount and path. A witness with
   another secret does not, whatever else it holds.
   */
  lemma {:induction false} LeafOpensExactly(depth: nat, c: seq<Field>, i: nat, nullifier: Field, secret: Field,
      amount: Field, pub: PublicInputs, w: Witness)
    requires i < |c| && i < Pow2(depth) && c[i] == Hash3(nullifier, secret, amount)
    requires pub.root == Root(Poseidon(), c, depth)
    ensures Accepts(depth, pub, w) && Descend(w.isEven, 0) == i
            <==> && pub.nullifierHash == Hash1(nullifier) && pub.amount == amount
                 && w == HonestWitness(depth, c, i, nullifier, secret)
  {
    if Accepts(depth, pub, w) && Descend(w.isEven, 0) == i {
      AcceptedIsMember(depth, c, pub, w);
      HashesBind(w.nullifier, w.secret, pub.amount, nullifier, secret, amount);
    }
    if pub.nullifierHash == Hash1(nullifier) && pub.amount == amount {
      HonestWitnessAccepted(depth, c, i, nullifier, secret, pub);
      InRange(i, depth);
      DescendFlags(i, depth);
    }
  }
}
