/**
 Reduction of 32 bytes to a field element, on chain
 (programs/ptrans/src/instructions.rs) and in the browser (useWithdraw.ts, crypto.ts).
 The two use different moduli.
 */
module FieldReduction {
  import opened Bytes

  /** The constant the program subtracts, as written there. */
  const PROGRAM_MODULUS_BYTES: Bytes32 := [
    0x30, 0x64, 0x4e, 0x72, 0xe1, 0x31, 0xa0, 0x29, 0xb8, 0x50, 0x45, 0xb6, 0x81, 0x81, 0x58, 0x5d,
    0x97, 0x81, 0x6a, 0x91, 0x68, 0x71, 0xca, 0x8d, 0x3c, 0x20, 0x8c, 0x16, 0xd8, 0x7c, 0xfd, 0x47
  ]

  const PROGRAM_MODULUS: nat := 0x30644e72_e131a029_b85045b6_8181585d_97816a91_6871ca8d_3c208c16_d87cfd47

  /** The constant the frontend divides by, as written there. */
  const FRONTEND_MODULUS: nat := 21888242871839275222246405745257275088548364400416034343698204186575808495617

  lemma ProgramModulusValue()
    ensures Value(PROGRAM_MODULUS_BYTES) == PROGRAM_MODULUS
  {
    ProgramModulusWords();
    ValueOfWords(PROGRAM_MODULUS_BYTES, 0x30644e72_e131a029, 0xb85045b6_8181585d, 0x97816a91_6871ca8d,
        0x3c208c16_d87cfd47);
  }

  /** The parameter of the curve BN254. */
  const CURVE: nat := 4965661367192848881

  /** The frontend's constant is the order of the curve's group, the program's the order of the field below it. */
  lemma ModuliOfTheCurve()
    ensures FRONTEND_MODULUS == (((36 * CURVE + 36) * CURVE + 18) * CURVE + 6) * CURVE + 1
    ensures PROGRAM_MODULUS == (((36 * CURVE + 36) * CURVE + 24) * CURVE + 6) * CURVE + 1
  {
  }

  lemma ProgramModulusWords()
    ensures Word(PROGRAM_MODULUS_BYTES, 0) == 0x30644e72_e131a029
    ensures Word(PROGRAM_MODULUS_BYTES, 8) == 0xb85045b6_8181585d
    ensures Word(PROGRAM_MODULUS_BYTES, 16) == 0x97816a91_6871ca8d
    ensures Word(PROGRAM_MODULUS_BYTES, 24) == 0x3c208c16_d87cfd47
  {
  }

  lemma {:induction false} ValueOfWords(b: seq<byte>, w0: nat, w1: nat, w2: nat, w3: nat)
    requires |b| == 32
    requires w0 == Word(b, 0) && w1 == Word(b, 8) && w2 == Word(b, 16) && w3 == Word(b, 24)
    ensures var word := 0x1_0000_0000_0000_0000;
            Value(b) == word * (word * (word * w0 + w1) + w2) + w3
  {
    ValueChunk(b, 0);
    ValueChunk(b, 8);
    ValueChunk(b, 16);
    ValueChunk(b, 24);
    assert b[..0] == [];
    assert b[..32] == b;
  }

  /** The 64-bit word at offset `i`. */
  function Word(b: seq<byte>, i: nat): nat
    requires i + 8 <= |b|
  {
    0x100_0000_0000_0000 * b[i] as int + 0x1_0000_0000_0000 * b[i + 1] as int
    + 0x100_0000_0000 * b[i + 2] as int + 0x1_0000_0000 * b[i + 3] as int
    + 0x100_0000 * b[i + 4] as int + 0x1_0000 * b[i + 5] as int
    + 0x100 * b[i + 6] as int + b[i + 7] as int
  }

  /** Eight more bytes. */
  lemma ValueChunk(b: seq<byte>, i: nat)
    requires i + 8 <= |b|
    ensures Value(b[..i + 8]) == 0x1_0000_0000_0000_0000 * Value(b[..i]) + Word(b, i)
  {
    ValueStep(b, i);
    ValueStep(b, i + 1);
    ValueStep(b, i + 2);
    ValueStep(b, i + 3);
    ValueStep(b, i + 4);
    ValueStep(b, i + 5);
    ValueStep(b, i + 6);
    ValueStep(b, i + 7);
  }

  lemma ValueStep(b: seq<byte>, i: nat)
    requires i < |b|
    ensures Value(b[..i + 1]) == 256 * Value(b[..i]) + b[i]
  {
    assert b[..i + 1][..i] == b[..i];
  }

  /** The low 32 - i digits of the difference, with the borrow still owed. */
  ghost predicate Subtracted(a: seq<byte>, b: seq<byte>, r: seq<byte>, i: nat, borrow: int)
    requires i <= |a| == |b| == |r|
  {
    && (borrow == 0 || borrow == 1)
    && Value(r[i..]) == Value(a[i..]) - Value(b[i..]) + (if borrow == 0 then 0 else Pow256(|a| - i))
  }

  /** The borrow loop is subtraction modulo 2^256. */
  method Sub256(a: Bytes32, b: Bytes32) returns (result: Bytes32)
    ensures Value(result) == Value(a) - Value(b) + (if Value(a) < Value(b) then Pow256(|a|) else 0)
  {
    result := seq(32, _ => 0);
    var borrow := 0;
    for i := 32 downto 0
      invariant Subtracted(a, b, result, i, borrow)
    {
      var diff: int := a[i] as int - b[i] - borrow;
      ghost var before, borrowed := result, borrow;
      if diff < 0 {
        result := result[i := diff + 256];
        borrow := 1;
      } else {
        result := result[i := diff];
        borrow := 0;
      }
      SubtractDigit(a, b, before, result, i, borrowed, borrow);
    }
    SubtractedAll(a, b, result, borrow);
  }

  lemma SubtractDigit(a: seq<byte>, b: seq<byte>, before: seq<byte>, r: seq<byte>, i: nat, borrowed: int, borrow: int)
    requires i < |a| == |b| == |before| == |r|
    requires Subtracted(a, b, before, i + 1, borrowed)
    requires r == before[i := r[i]]
    requires borrow == 0 || borrow == 1
    requires r[i] as int == a[i] as int - b[i] - borrowed + 256 * borrow
    ensures Subtracted(a, b, r, i, borrow)
  {
    assert r[i + 1..] == before[i + 1..];
    TailHead(a, i);
    TailHead(b, i);
    TailHead(r, i);
    Carry(r[i], a[i], b[i], borrowed, borrow, Pow256(|a| - 1 - i), Value(r[i + 1..]), Value(a[i + 1..]),
        Value(b[i + 1..]));
  }

  /** One digit and the value of the digits after it, p being the weight of the digit. */
  lemma Carry(r: int, a: int, b: int, borrowed: int, borrow: int, p: int, rs: int, xs: int, ys: int)
    requires r == a - b - borrowed + 256 * borrow
    requires rs == xs - ys + borrowed * p
    ensures r * p + rs == (a * p + xs) - (b * p + ys) + borrow * (256 * p)
  {
    assert r * p == a * p - b * p - borrowed * p + borrow * (256 * p);
  }

  lemma TailHead(s: seq<byte>, i: nat)
    requires i < |s|
    ensures Value(s[i..]) == s[i] * Pow256(|s| - 1 - i) + Value(s[i + 1..])
  {
    ValueHead(s[i..]);
    assert s[i..][1..] == s[i + 1..];
  }

  lemma {:induction false} SubtractedAll(a: seq<byte>, b: seq<byte>, r: seq<byte>, borrow: int)
    requires |a| == |b| == |r| && Subtracted(a, b, r, 0, borrow)
    ensures Value(r) == Value(a) - Value(b) + (if Value(a) < Value(b) then Pow256(|a|) else 0)
  {
    assert a[0..] == a && b[0..] == b && r[0..] == r;
    ValueBound(a);
    ValueBound(b);
    ValueBound(r);
  }


  /** How many times the program subtracts its modulus from `v`. */
  function Subtractions(v: nat): nat {
    if v / PROGRAM_MODULUS < 4 then v / PROGRAM_MODULUS else 4
  }

  function OnChainValue(v: nat): nat {
    v - Subtractions(v) * PROGRAM_MODULUS
  }

  function OnChainReduce(bytes: Bytes32): Bytes32 {
    Encode(OnChainValue(Value(bytes)), |bytes|)
  }

  method ReduceToField(bytes: Bytes32) returns (result: Bytes32)
    ensures result == OnChainReduce(bytes)
  {
    ProgramModulusValue();
    result := ReduceBy(bytes, PROGRAM_MODULUS_BYTES);
  }

  method ReduceBy(bytes: Bytes32, modulus: Bytes32) returns (result: Bytes32)
    requires Value(modulus) == PROGRAM_MODULUS
    ensures result == OnChainReduce(bytes)
  {
    ghost var v := Value(bytes);
    EncodeOfValue(bytes);
    LessIsNumeric(bytes, modulus);
    if Less(bytes, modulus) {
      return bytes;
    }
    result := bytes;
    ghost var taken := 0;
    for n := 0 to 4
      invariant taken == n && Value(result) == v - taken * PROGRAM_MODULUS
    {
      LessIsNumeric(result, modulus);
      if Less(result, modulus) {
        break;
      }
      result := Sub256(result, modulus);
      taken := taken + 1;
    }
    LoopDone(v, taken, Value(result));
    EncodeOfValue(result);
  }

  lemma LoopDone(v: nat, taken: nat, w: nat)
    requires w == v - taken * PROGRAM_MODULUS
    requires taken <= 4 && (taken == 4 || w < PROGRAM_MODULUS)
    ensures OnChainValue(v) == w
  {
    if taken == 4 {
      assert v / PROGRAM_MODULUS >= 4;
    } else {
      assert v / PROGRAM_MODULUS == taken;
    }
  }

  /**
   What the loop of four computes on every input: the result is congruent to the input modulo
   the program's constant, but it is reduced exactly for inputs below five times that constant,
   which are not all of them; a fifth iteration would have reduced every input.
   */
  lemma {:induction false} OnChainReduceExact(bytes: Bytes32)
    ensures var v, w := Value(bytes), Value(OnChainReduce(bytes));
            && w == v - Subtractions(v) * PROGRAM_MODULUS
            && w % PROGRAM_MODULUS == v % PROGRAM_MODULUS
            && (w < PROGRAM_MODULUS <==> v < 5 * PROGRAM_MODULUS)
            && v < 6 * PROGRAM_MODULUS
  {
    var v := Value(bytes);
    ValueBound(bytes);
    Pow256Of32();
    SubtractionsReduce(v);
    ValueOfEncode(OnChainValue(v), |bytes|);
  }

  lemma SubtractionsReduce(v: nat)
    ensures var w := OnChainValue(v);
            && w <= v
            && w % PROGRAM_MODULUS == v % PROGRAM_MODULUS
            && (w < PROGRAM_MODULUS <==> v < 5 * PROGRAM_MODULUS)
  {
    var k := Subtractions(v);
    assert k == 0 || k == 1 || k == 2 || k == 3 || k == 4;
  }

  /** Five times the constant is left at or above the constant. */
  lemma FourIterationsNotEnough()
    ensures exists bytes: Bytes32 :: Value(OnChainReduce(bytes)) >= PROGRAM_MODULUS
  {
    var n := 5 * PROGRAM_MODULUS;
    Pow256Of32();
    var bytes: Bytes32 := Encode(n, 32);
    ValueOfEncode(n, 32);
    OnChainReduceExact(bytes);
  }

  /** One iteration more would have been enough for every input. */
  lemma {:induction false} FiveIterationsAreEnough(bytes: Bytes32)
    ensures var v := Value(bytes);
            var k := if v / PROGRAM_MODULUS < 5 then v / PROGRAM_MODULUS else 5;
            v - k * PROGRAM_MODULUS == v % PROGRAM_MODULUS < PROGRAM_MODULUS
  {
    var v := Value(bytes);
    OnChainReduceExact(bytes);
    var k := v / PROGRAM_MODULUS;
    assert k == 0 || k == 1 || k == 2 || k == 3 || k == 4 || k == 5;
  }

  /** `bytes[i] ?? 0` for i in 0..32. */
  function First32(bytes: seq<byte>): Bytes32 {
    seq(32, i requires 0 <= i < 32 => if i < |bytes| then bytes[i] else 0)
  }

  /** What a key of another length is read as: cut off after 32 bytes, or filled up with zeros. */
  lemma {:induction false} First32Exact(bytes: seq<byte>)
    ensures |bytes| >= 32 ==> First32(bytes) == bytes[..32]
    ensures |bytes| < 32 ==> First32(bytes) == bytes + seq(32 - |bytes|, _ => 0)
  {
  }

  function FrontendReduce(bytes: seq<byte>): Bytes32 {
    var b := First32(bytes);
    Encode(Value(b) % FRONTEND_MODULUS, |b|)
  }

  /** `reduceToField` in useWithdraw.ts and, line for line, `bytesToFieldElement` in crypto.ts. */
  method FrontendReduceToField(bytes: seq<byte>) returns (result: Bytes32)
    ensures result == FrontendReduce(bytes)
  {
    var value: nat := 0;
    for i := 0 to 32
      invariant value == Value(First32(bytes)[..i])
    {
      ValueStep(First32(bytes), i);
      value := value * 256 + (if i < |bytes| then bytes[i] else 0);
    }
    assert First32(bytes)[..32] == First32(bytes);
    value := value % FRONTEND_MODULUS;

    ghost var goal := Encode(value, |First32(bytes)|);
    var r: seq<byte> := seq(32, _ => 0);
    for i := 32 downto 0
      invariant |r| == 32
      invariant goal == Encode(value, i) + r[i..]
    {
      ghost var before := r;
      r := r[i := value % 256];
      assert r[i..] == [value % 256] + before[i + 1..];
      value := value / 256;
      assert goal == Encode(value, i) + r[i..];
    }
    assert r[0..] == r && goal == r;
    result := r;
  }

  lemma {:induction false} FrontendValue(bytes: Bytes32)
    ensures Value(FrontendReduce(bytes)) == Value(bytes) % FRONTEND_MODULUS
  {
    First32Identity(bytes);
    Pow256Of32();
    ValueOfEncode(Value(bytes) % FRONTEND_MODULUS, |bytes|);
  }

  lemma {:induction false} FrontendIdentity(bytes: Bytes32)
    requires Value(bytes) < FRONTEND_MODULUS
    ensures FrontendReduce(bytes) == bytes
  {
    First32Identity(bytes);
    SmallRemainder(Value(bytes));
    EncodeOfValue(bytes);
  }

  lemma First32Identity(bytes: Bytes32)
    ensures First32(bytes) == bytes
  {
  }

  lemma SmallRemainder(v: nat)
    requires v < FRONTEND_MODULUS
    ensures v % FRONTEND_MODULUS == v
  {
  }

  lemma {:induction false} OnChainIdentity(bytes: Bytes32)
    requires Value(bytes) < PROGRAM_MODULUS
    ensures OnChainReduce(bytes) == bytes
  {
    EncodeOfValue(bytes);
    LoopDone(Value(bytes), 0, Value(bytes));
  }

  /** The frontend's result is the value modulo its constant, and reducing twice changes nothing. */
  lemma {:induction false} FrontendReduceExact(bytes: Bytes32)
    ensures Value(FrontendReduce(bytes)) == Value(bytes) % FRONTEND_MODULUS
    ensures FrontendReduce(FrontendReduce(bytes)) == FrontendReduce(bytes)
    ensures Value(bytes) < FRONTEND_MODULUS <==> FrontendReduce(bytes) == bytes
  {
    FrontendValue(bytes);
    FrontendIdentity(FrontendReduce(bytes));
    if Value(bytes) < FRONTEND_MODULUS {
      FrontendIdentity(bytes);
    }
  }

  /** Both sides give the same 32 bytes exactly for keys below the frontend's modulus. */
  lemma {:induction false} ReducersAgree(bytes: Bytes32)
    ensures OnChainReduce(bytes) == FrontendReduce(bytes) <==> Value(bytes) < FRONTEND_MODULUS
  {
    if Value(bytes) < FRONTEND_MODULUS {
      OnChainIdentity(bytes);
      FrontendIdentity(bytes);
    } else {
      OnChainReduceExact(bytes);
      FrontendValue(bytes);
      MultiplesDiffer(Value(bytes));
    }
  }

  /** No number of subtractions of the one constant equals a number of subtractions of the other. */
  lemma MultiplesDiffer(v: nat)
    requires FRONTEND_MODULUS <= v < 6 * PROGRAM_MODULUS
    ensures OnChainValue(v) != v % FRONTEND_MODULUS
  {
    var k, j := Subtractions(v), v / FRONTEND_MODULUS;
    assert v % FRONTEND_MODULUS == v - j * FRONTEND_MODULUS;
    assert k * PROGRAM_MODULUS != j * FRONTEND_MODULUS;
  }

  /** A key the two sides reduce to different bytes: the frontend's modulus, which it takes to 0. */
  lemma {:induction false} ReducersDisagree()
    ensures FRONTEND_MODULUS < Pow256(32)
    ensures var key := Encode(FRONTEND_MODULUS, 32);
            && Value(FrontendReduce(key)) == 0
            && OnChainReduce(key) == key != FrontendReduce(key)
  {
    Pow256Of32();
    var key: Bytes32 := Encode(FRONTEND_MODULUS, 32);
    ValueOfEncode(FRONTEND_MODULUS, 32);
    FrontendValue(key);
    OnChainIdentity(key);
    ReducersAgree(key);
  }
}
