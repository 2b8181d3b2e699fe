/** The bytes the program hands to the verifier (programs/ptrans/src/instructions.rs). */
module PublicInputEncoding {
  import opened Bytes
  import opened Events
  import opened FieldReduction

  const NR_PUBLIC_INPUTS: nat := 4

  /** A 12-byte header, then four fields of 32 bytes. */
  ghost predicate Lays(inputs: seq<byte>, root: Bytes32, nullifierHash: Bytes32, recipient: Bytes32, amount: u64) {
    && |inputs| == 140
    && inputs[..12] == [0, 0, 0, 4, 0, 0, 0, 0, 0, 0, 0, 4]
    && inputs[12..44] == root
    && inputs[44..76] == nullifierHash
    && inputs[76..108] == OnChainReduce(recipient)
    && Value(inputs[108..140]) == amount
  }

  method EncodePublicInputs(root: Bytes32, nullifierHash: Bytes32, recipient: Pubkey, amount: u64)
    returns (inputs: seq<byte>)
    ensures Lays(inputs, root, nullifierHash, recipient, amount)
  {
    var header := Encode(NR_PUBLIC_INPUTS, 4) + Encode(0, 4) + Encode(NR_PUBLIC_INPUTS, 4);
    var recipientField := ReduceToField(recipient);
    var amountBytes: seq<byte> := seq(32, _ => 0);
    amountBytes := amountBytes[..24] + Encode(amount, 8);
    PaddedAmount(amountBytes, amount);

    inputs := header + root + nullifierHash + recipientField + amountBytes;
    assert inputs[12..44] == root;
    assert inputs[44..76] == nullifierHash;
    assert inputs[76..108] == recipientField;
    assert inputs[108..140] == amountBytes;
    assert inputs[..12] == header;
    HeaderBytes();
  }

  lemma HeaderBytes()
    ensures Encode(NR_PUBLIC_INPUTS, 4) == [0, 0, 0, 4] && Encode(0, 4) == [0, 0, 0, 0]
  {
  }

  lemma {:induction false} ValueOfZeros(b: seq<byte>)
    requires forall i | 0 <= i < |b| :: b[i] == 0
    ensures Value(b) == 0
  {
    if |b| > 0 { ValueOfZeros(b[..|b| - 1]); }
  }

  lemma {:induction false} ValueAppend(a: seq<byte>, b: seq<byte>)
    requires Value(a) == 0
    ensures Value(a + b) == Value(b)
    decreases |b|
  {
    if |b| == 0 {
      assert a + b == a;
    } else {
      ValueAppend(a, b[..|b| - 1]);
      assert (a + b)[..|a + b| - 1] == a + b[..|b| - 1];
    }
  }

  lemma {:induction false} PaddedAmount(b: seq<byte>, amount: u64)
    requires |b| == 32 && (forall i | 0 <= i < 24 :: b[i] == 0) && b[24..] == Encode(amount, 8)
    ensures Value(b) == amount
  {
    ValueOfZeros(b[..24]);
    ValueAppend(b[..24], b[24..]);
    assert b == b[..24] + b[24..];
    Pow256Of8();
    ValueOfEncode(amount, 8);
  }

  /** Two calls give the verifier the same bytes exactly when all four public inputs agree. */
  lemma LayoutDeterminesInputs(
    a: seq<byte>, root: Bytes32, nullifierHash: Bytes32, recipient: Bytes32, amount: u64,
    b: seq<byte>, root': Bytes32, nullifierHash': Bytes32, recipient': Bytes32, amount': u64)
    requires Lays(a, root, nullifierHash, recipient, amount)
    requires Lays(b, root', nullifierHash', recipient', amount')
    ensures a == b <==> && root == root' && nullifierHash == nullifierHash'
                        && OnChainReduce(recipient) == OnChainReduce(recipient') && amount == amount'
  {
    Pieces(a);
    Pieces(b);
    if amount == amount' {
      ValueInjective(a[108..140], b[108..140]);
    }
  }

  lemma Pieces(a: seq<byte>)
    requires |a| == 140
    ensures a == a[..12] + a[12..44] + a[44..76] + a[76..108] + a[108..140]
  {
  }
}
