/**
 Events: what the program emits (programs/ptrans/src/events.rs), how Borsh lays it out
 behind an 8-byte tag, and how the indexer reads it back by length and offset
 (app/backend/src/indexer.rs).
 */
module Events {
  import opened Bytes

  type Pubkey = Bytes32
  type u64 = n: int | 0 <= n < 0x1_0000_0000_0000_0000
  type i64 = n: int | -0x8000_0000_0000_0000 <= n < 0x8000_0000_0000_0000
  type Tag = b: seq<byte> | |b| == 8 witness [0, 0, 0, 0, 0, 0, 0, 0]

  datatype Event<+T> =
    | DepositEvent(commitment: T, leafIndex: u64, timestamp: i64, newRoot: T)
    | WithdrawEvent(nullifierHash: T, recipient: Pubkey, timestamp: i64)

  /** What the indexer takes from one `Program data:` line. */
  datatype Payload<+T> =
    | Deposited(commitment: T, leafIndex: i64, newRoot: T)
    | Withdrawn(nullifierHash: T, recipient: Pubkey)
    | Ignored

  /** Little-endian value of a byte string. */
  function ValueLE(b: seq<byte>): nat {
    if |b| == 0 then 0 else b[0] + 256 * ValueLE(b[1..])
  }

  function EncodeLE(n: nat, len: nat): (b: seq<byte>)
    ensures |b| == len
    decreases len, n
  {
    if len == 0 then [] else [n % 256] + EncodeLE(n / 256, len - 1)
  }

  lemma {:induction false} ValueOfEncodeLE(n: nat, len: nat)
    requires n < Pow256(len)
    ensures ValueLE(EncodeLE(n, len)) == n
  {
    if len > 0 {
      ValueOfEncodeLE(n / 256, len - 1);
      assert EncodeLE(n, len)[1..] == EncodeLE(n / 256, len - 1);
    }
  }

  lemma Pow256Of8()
    ensures Pow256(8) == 0x1_0000_0000_0000_0000
  {
  }

  /** Two's complement of 64 bits, both ways. */
  function FromI64(i: i64): nat {
    if i < 0 then i + 0x1_0000_0000_0000_0000 else i
  }

  function ToI64(n: nat): i64
    requires n < 0x1_0000_0000_0000_0000
  {
    if n < 0x8000_0000_0000_0000 then n else n - 0x1_0000_0000_0000_0000
  }

  function Word64(n: nat): seq<byte> {
    EncodeLE(n, 8)
  }

  function EncodeEvent(tag: Tag, e: Event<Bytes32>): seq<byte> {
    match e
    case DepositEvent(c, i, ts, r) => tag + c + Word64(i) + Word64(FromI64(ts)) + r
    case WithdrawEvent(n, to, ts) => tag + n + to + Word64(FromI64(ts))
  }

  lemma {:induction false} ValueLEBound(b: seq<byte>)
    ensures ValueLE(b) < Pow256(|b|)
  {
    if |b| > 0 { ValueLEBound(b[1..]); }
  }

  function ReadWord64(b: seq<byte>): (n: nat)
    requires |b| == 8
    ensures n < 0x1_0000_0000_0000_0000
  {
    ValueLEBound(b);
    Pow256Of8();
    ValueLE(b)
  }

  /** Length 88 is read as a deposit, 80 as a withdrawal; the tag is not looked at. */
  function Decode(bytes: seq<byte>): Payload<Bytes32> {
    if |bytes| == 88 then Deposited(bytes[8..40], ToI64(ReadWord64(bytes[40..48])), bytes[56..88])
    else if |bytes| == 80 then Withdrawn(bytes[8..40], bytes[40..72])
    else Ignored
  }

  /** What the indexer is meant to take from an event. */
  function PayloadOf<T>(e: Event<T>): Payload<T> {
    match e
    case DepositEvent(c, i, _, r) => Deposited(c, ToI64(i), r)
    case WithdrawEvent(n, to, _) => Withdrawn(n, to)
  }

  function Reversed(b: seq<byte>): (r: seq<byte>)
    ensures |r| == |b|
  {
    if |b| == 0 then [] else Reversed(b[1..]) + [b[0]]
  }

  /** Little-endian is big-endian read backwards. */
  lemma {:induction false} LittleEndianIsReversed(b: seq<byte>)
    ensures ValueLE(b) == Value(Reversed(b))
  {
    if |b| > 0 {
      LittleEndianIsReversed(b[1..]);
      assert Reversed(b)[..|b| - 1] == Reversed(b[1..]);
    }
  }

  /** The length alone decides what a line is read as. */
  lemma DecodeByLength(bytes: seq<byte>)
    ensures Decode(bytes).Deposited? <==> |bytes| == 88
    ensures Decode(bytes).Withdrawn? <==> |bytes| == 80
  {
  }

  /** Tag, then the fields in the order of their declaration. */
  lemma EventLayout(tag: Tag, e: Event<Bytes32>)
    ensures var b := EncodeEvent(tag, e);
            match e
            case DepositEvent(c, i, ts, r) =>
              && |b| == 88 && b[..8] == tag && b[8..40] == c && b[56..88] == r
              && ValueLE(b[40..48]) == i && ToI64(ReadWord64(b[48..56])) == ts
            case WithdrawEvent(n, to, ts) =>
              && |b| == 80 && b[..8] == tag && b[8..40] == n && b[40..72] == to
              && ToI64(ReadWord64(b[72..80])) == ts
  {
    WordRoundTrip(FromI64(e.timestamp));
    match e
    case DepositEvent(c, i, ts, r) =>
      var b := EncodeEvent(tag, e);
      WordRoundTrip(i);
      assert b[40..48] == Word64(i) && b[48..56] == Word64(FromI64(ts));
      assert b[8..40] == c && b[56..88] == r;
    case WithdrawEvent(n, to, ts) =>
      var b := EncodeEvent(tag, e);
      assert b[8..40] == n && b[40..72] == to && b[72..80] == Word64(FromI64(ts));
  }

  lemma WordRoundTrip(n: nat)
    requires n < 0x1_0000_0000_0000_0000
    ensures |Word64(n)| == 8 && ReadWord64(Word64(n)) == n
  {
    Pow256Of8();
    ValueOfEncodeLE(n, 8);
  }

  /** Every event, whatever its tag, is read back as itself; the lengths keep the two kinds apart. */
  lemma EventRoundTrip(tag: Tag, e: Event<Bytes32>)
    ensures Decode(EncodeEvent(tag, e)) == PayloadOf(e)
    ensures e.DepositEvent? && e.leafIndex < 0x8000_0000_0000_0000
            ==> Decode(EncodeEvent(tag, e)) == Deposited(e.commitment, e.leafIndex, e.newRoot)
  {
    var b := EncodeEvent(tag, e);
    match e
    case DepositEvent(c, i, ts, r) =>
      WordRoundTrip(i);
      assert b[8..40] == c;
      assert b[40..48] == Word64(i);
      assert b[56..88] == r;
    case WithdrawEvent(n, to, ts) =>
      assert b[8..40] == n;
      assert b[40..72] == to;
  }
}
