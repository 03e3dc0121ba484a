/**
 * The Protocol Buffers "Base 128 Varint" wire encoding, as used by the dump
 * files for record lengths and for the zero-length end sentinel.
 * Each byte carries seven bits of the value, least significant group first;
 * the high bit of a byte is set when more bytes follow.
 */
module Varint {
  import opened Common

  /** A reader gives up on a varint longer than this many bytes. */
  const MaxVarintBytes: nat := 10

  /** The bytes `WriteVarint32(n)` emits. */
  function Encode(n: nat): (r: seq<byte>)
    ensures 1 <= |r|
    ensures forall i :: 0 <= i < |r| - 1 ==> r[i] >= 0x80
    ensures r[|r| - 1] < 0x80
    ensures n < 0x80 <==> |r| == 1
  {
    if n < 0x80 then [n as byte]
    else [(n % 0x80 + 0x80) as byte] + Encode(n / 0x80)
  }

  /** The varint of an unsigned 32-bit value is at most five bytes long. */
  lemma {:induction false} EncodeLength(n: nat, k: nat)
    requires n < Pow128(k)
    requires 1 <= k
    ensures |Encode(n)| <= k
  {
    if n >= 0x80 {
      assert Pow128(1) == 0x80;
      assert n / 0x80 < Pow128(k - 1);
      EncodeLength(n / 0x80, k - 1);
    }
  }

  function Pow128(k: nat): nat {
    if k == 0 then 1 else 0x80 * Pow128(k - 1)
  }

  lemma EncodeLength32(n: nat)
    requires n < TwoTo32
    ensures |Encode(n)| <= 5
  {
    assert Pow128(5) == TwoTo32 * 8;
    EncodeLength(n, 5);
  }

  /**
   * Reads one varint from the front of `s`, looking at no more than `limit`
   * bytes. Gives the unbounded value and the number of bytes used, or None
   * when the input ends or the limit is reached before a final byte.
   */
  function DecodeRaw(s: seq<byte>, limit: nat): (r: Option<(nat, nat)>)
    ensures r.Some? ==> 1 <= r.value.1 <= |s| && r.value.1 <= limit
    ensures r.Some? ==> s[r.value.1 - 1] < 0x80
  {
    if |s| == 0 || limit == 0 then None
    else if s[0] < 0x80 then Some((s[0] as nat, 1))
    else match DecodeRaw(s[1..], limit - 1)
      case None => None
      case Some((v, k)) => Some(((s[0] as nat - 0x80) + 0x80 * v, k + 1))
  }

  /**
   * `ReadVarint32`: a varint of at most ten bytes, of which the value's low
   * 32 bits are kept. None is a failed read.
   */
  function ReadVarint32(s: seq<byte>): (r: Option<(nat, nat)>)
    ensures r.Some? ==> r.value.0 < TwoTo32 && 1 <= r.value.1 <= |s|
    ensures |s| == 0 ==> r.None?
  {
    match DecodeRaw(s, MaxVarintBytes)
    case None => None
    case Some((v, k)) => Some((v % TwoTo32, k))
  }

  /** Decoding the encoding of `n`, followed by anything, gives back `n` and the encoding's length. */
  lemma {:induction false} DecodeEncode(n: nat, rest: seq<byte>, limit: nat)
    requires |Encode(n)| <= limit
    ensures DecodeRaw(Encode(n) + rest, limit) == Some((n, |Encode(n)|))
  {
    var e := Encode(n) + rest;
    if n >= 0x80 {
      assert e[1..] == Encode(n / 0x80) + rest;
      DecodeEncode(n / 0x80, rest, limit - 1);
    }
  }

  /** Round trip of the 32-bit reader over the 32-bit writer. */
  lemma ReadWriteVarint32(n: nat, rest: seq<byte>)
    requires n < TwoTo32
    ensures ReadVarint32(Encode(n) + rest) == Some((n, |Encode(n)|))
  {
    EncodeLength32(n);
    DecodeEncode(n, rest, MaxVarintBytes);
  }

  /** The encoding is prefix-free: two encodings that start the same stream are the same value. */
  lemma EncodeInjective(m: nat, n: nat, rm: seq<byte>, rn: seq<byte>)
    requires Encode(m) + rm == Encode(n) + rn
    ensures m == n
  {
    var lm, ln := |Encode(m)|, |Encode(n)|;
    DecodeEncode(m, rm, lm + ln);
    DecodeEncode(n, rn, lm + ln);
  }
}
