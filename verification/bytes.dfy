/** Fixed-width unsigned integers, their big-endian byte encodings and bitwise AND. */
module Bytes {

  type uint8 = x: int | 0 <= x < 0x100
  type uint16 = x: int | 0 <= x < 0x1_0000

  /** 256^n: the number of values an n-byte unsigned integer can hold. */
  function Pow256(n: nat): (r: nat)
    ensures r >= 1
  {
    if n == 0 then 1 else 256 * Pow256(n - 1)
  }

  /** The value of a big-endian byte string (most significant byte first). */
  function FromBigEndian(s: seq<uint8>): (x: nat)
    ensures x < Pow256(|s|)
  {
    if |s| == 0 then 0
    else
      var hi := FromBigEndian(s[..|s| - 1]);
      assert hi * 256 + s[|s| - 1] < Pow256(|s| - 1) * 256 by {
        assert hi + 1 <= Pow256(|s| - 1);
      }
      hi * 256 + s[|s| - 1]
  }

  /** `to_be_bytes` for an n-byte unsigned integer: n bytes, most significant first. */
  function ToBigEndian(x: nat, n: nat): (s: seq<uint8>)
    requires x < Pow256(n)
    ensures |s| == n
    ensures FromBigEndian(s) == x
    decreases n
  {
    if n == 0 then []
    else
      var hi := ToBigEndian(x / 256, n - 1);
      var s := hi + [x % 256];
      assert s[..|s| - 1] == hi;
      s
  }

  /** A big-endian string is the only n-byte encoding of its value. */
  lemma {:induction false} ToFromBigEndian(s: seq<uint8>)
    ensures ToBigEndian(FromBigEndian(s), |s|) == s
    decreases |s|
  {
    if |s| > 0 {
      var init := s[..|s| - 1];
      ToFromBigEndian(init);
      var x := FromBigEndian(s);
      assert x / 256 == FromBigEndian(init);
      assert x % 256 == s[|s| - 1];
      assert s == init + [s[|s| - 1]];
    }
  }

  /** A one-byte big-endian string is its byte. */
  lemma BigEndian1(s: seq<uint8>)
    requires |s| == 1
    ensures FromBigEndian(s) == s[0]
  {
    assert s[..0] == [];
  }

  /** Two-byte big-endian strings: the high byte times 256 plus the low byte. */
  lemma BigEndian2(s: seq<uint8>)
    requires |s| == 2
    ensures FromBigEndian(s) == s[0] as int * 256 + s[1]
  {
    assert s[..1][..0] == [];
  }

  /** The one byte of an 8-bit value. */
  lemma ToBigEndian1(x: nat)
    requires x < 0x100
    ensures ToBigEndian(x, 1) == [x]
  {
    assert x / 256 == 0 && x % 256 == x;
    assert ToBigEndian(0, 0) == [];
  }

  /** The two bytes of a 16-bit value, high byte first. */
  lemma ToBigEndian2(x: nat)
    requires x < 0x1_0000
    ensures ToBigEndian(x, 2) == [x / 256, x % 256]
  {
    assert ToBigEndian(x / 256 / 256, 0) == [];
  }

  /** Bitwise AND of two naturals, one bit at a time from the least significant end. */
  function BitAnd(a: nat, b: nat): (r: nat)
    ensures r <= a && r <= b
  {
    if a == 0 || b == 0 then 0
    else 2 * BitAnd(a / 2, b / 2) + (if a % 2 == 1 && b % 2 == 1 then 1 else 0)
  }

  /** 2^n: one more than a mask of n one-bits. */
  function Pow2(n: nat): (r: nat)
    ensures r >= 1
  {
    if n == 0 then 1 else 2 * Pow2(n - 1)
  }

  /** Eight more bits are one more byte: 2^(k+8) == 256 * 2^k. */
  lemma Pow2Byte(k: nat)
    ensures Pow2(k + 8) == 256 * Pow2(k)
  {
    assert Pow2(k + 8) == 2 * Pow2(k + 7);
    assert Pow2(k + 7) == 2 * Pow2(k + 6);
    assert Pow2(k + 6) == 2 * Pow2(k + 5);
    assert Pow2(k + 5) == 2 * Pow2(k + 4);
    assert Pow2(k + 4) == 2 * Pow2(k + 3);
    assert Pow2(k + 3) == 2 * Pow2(k + 2);
    assert Pow2(k + 2) == 2 * Pow2(k + 1);
  }

  /** The two power functions agree: 256^n == 2^(8n), so n bytes hold exactly 8n bits. */
  lemma {:induction false} Pow256IsPow2(n: nat)
    ensures Pow256(n) == Pow2(8 * n)
    decreases n
  {
    if n > 0 {
      Pow256IsPow2(n - 1);
      Pow2Byte(8 * (n - 1));
    }
  }

  /** AND with a mask of n one-bits keeps every value below 2^n unchanged. */
  lemma {:induction false} BitAndLowOnes(x: nat, n: nat)
    requires x < Pow2(n)
    ensures BitAnd(x, Pow2(n) - 1) == x
    decreases n
  {
    if x != 0 {
      assert n > 0;
      var m := Pow2(n) - 1;
      assert m % 2 == 1 && m / 2 == Pow2(n - 1) - 1;
      BitAndLowOnes(x / 2, n - 1);
    }
  }

  /** A zero low bit in the mask drops the low bit of the value. */
  lemma BitAndEvenMask(a: nat, c: nat)
    ensures BitAnd(a, 2 * c) == 2 * BitAnd(a / 2, c)
  {
    if a != 0 && c != 0 {
      assert (2 * c) % 2 == 0 && (2 * c) / 2 == c;
    }
  }

  /** `v & 0xff00` on a 16-bit value keeps exactly its high byte. */
  lemma MaskHighByte(v: uint16)
    ensures BitAnd(v, 0xff00) == v / 256 * 256
  {
    BitAndEvenMask(v, 0x7f80);
    BitAndEvenMask(v / 2, 0x3fc0);
    BitAndEvenMask(v / 4, 0x1fe0);
    BitAndEvenMask(v / 8, 0xff0);
    BitAndEvenMask(v / 16, 0x7f8);
    BitAndEvenMask(v / 32, 0x3fc);
    BitAndEvenMask(v / 64, 0x1fe);
    BitAndEvenMask(v / 128, 0xff);
    assert v / 2 / 2 == v / 4 && v / 4 / 2 == v / 8 && v / 8 / 2 == v / 16;
    assert v / 16 / 2 == v / 32 && v / 32 / 2 == v / 64 && v / 64 / 2 == v / 128;
    assert v / 128 / 2 == v / 256;
    assert Pow2(8) == 256;
    BitAndLowOnes(v / 256, 8);
  }
}
