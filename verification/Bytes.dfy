/** Bytes and the numbers that 32 big-endian bytes stand for. */
module Bytes {
  import opened Arithmetic

  type byte = n: int | 0 <= n < 256

  type Bytes32 = b: seq<byte> | |b| == 32 witness seq(32, _ => 0 as byte)

  function Pow256(k: nat): (p: nat)
    ensures p > 0
  {
    if k == 0 then 1 else 256 * Pow256(k - 1)
  }

  /** Big-endian value. */
  function Value(b: seq<byte>): nat {
    if |b| == 0 then 0 else 256 * Value(b[..|b| - 1]) + b[|b| - 1]
  }

  /** The `len` low-order bytes of `n`, most significant first. */
  function Encode(n: nat, len: nat): (b: seq<byte>)
    ensures |b| == len
    decreases len, n
  {
    if len == 0 then [] else Encode(n / 256, len - 1) + [n % 256]
  }

  /** The order of Rust's byte arrays: lexicographic. */
  predicate Less(a: seq<byte>, b: seq<byte>)
    requires |a| == |b|
  {
    |a| > 0 && (a[0] < b[0] || (a[0] == b[0] && Less(a[1..], b[1..])))
  }

  lemma {:induction false} ValueBound(b: seq<byte>)
    ensures Value(b) < Pow256(|b|)
  {
    if |b| > 0 { ValueBound(b[..|b| - 1]); }
  }

  /** Peeling the most significant byte. */
  lemma {:induction false} ValueHead(b: seq<byte>)
    requires |b| > 0
    ensures Value(b) == b[0] * Pow256(|b| - 1) + Value(b[1..])
  {
    var m := |b| - 1;
    if m > 0 {
      var init, tail := b[..m], b[1..];
      ValueHead(init);
      assert init[1..] == tail[..m - 1];
      assert Value(b) == 256 * Value(init) + b[m];
      assert Value(tail) == 256 * Value(init[1..]) + b[m];
      ScaleHead(b[0], Pow256(m - 1), Value(init[1..]));
    }
  }

  lemma ScaleHead(x: int, p: int, v: int)
    ensures 256 * (x * p + v) == x * (256 * p) + 256 * v
  {
  }

  lemma {:induction false} ValueOfEncode(n: nat, len: nat)
    requires n < Pow256(len)
    ensures Value(Encode(n, len)) == n
  {
    if len > 0 {
      ValueOfEncode(n / 256, len - 1);
      assert Encode(n, len)[..len - 1] == Encode(n / 256, len - 1);
    }
  }

  lemma {:induction false} EncodeOfValue(b: seq<byte>)
    ensures Encode(Value(b), |b|) == b
  {
    if |b| > 0 {
      var m := |b| - 1;
      EncodeOfValue(b[..m]);
      assert b == b[..m] + [b[m]];
    }
  }

  lemma {:induction false} ValueInjective(a: seq<byte>, b: seq<byte>)
    requires |a| == |b| && Value(a) == Value(b)
    ensures a == b
  {
    EncodeOfValue(a);
    EncodeOfValue(b);
  }

  /** Array order is numeric order. */
  lemma {:induction false} LessIsNumeric(a: seq<byte>, b: seq<byte>)
    requires |a| == |b|
    ensures Less(a, b) <==> Value(a) < Value(b)
  {
    if |a| > 0 {
      var p := Pow256(|a| - 1);
      ValueHead(a);
      ValueHead(b);
      ValueBound(a[1..]);
      ValueBound(b[1..]);
      if a[0] < b[0] {
        MulGap(a[0], b[0], p);
      } else if a[0] > b[0] {
        MulGap(b[0], a[0], p);
      } else {
        LessIsNumeric(a[1..], b[1..]);
      }
    }
  }

  /** 32 bytes hold the numbers below 2^256. */
  lemma Pow256Of32()
    ensures Pow256(32) == 0x1_0000_0000_0000_0000_0000_0000_0000_0000_0000_0000_0000_0000_0000_0000_0000_0000
  {
    assert Pow256(8) == 0x1_0000_0000_0000_0000;
    assert Pow256(16) == 0x1_0000_0000_0000_0000_0000_0000_0000_0000;
    assert Pow256(24) == 0x1_0000_0000_0000_0000_0000_0000_0000_0000_0000_0000_0000_0000;
  }
}
