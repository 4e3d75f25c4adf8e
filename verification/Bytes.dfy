/** Byte strings: fixed sizes, big-endian integers and ASCII labels. */
module Bytes {
  import opened Common

  type Bytes = seq<byte>
  type Bytes16 = s: Bytes | |s| == 16 witness seq(16, _ => 0)
  type Bytes32 = s: Bytes | |s| == 32 witness seq(32, _ => 0)

  function Pow256(k: nat): (p: nat)
    ensures p > 0
  {
    if k == 0 then 1 else 256 * Pow256(k - 1)
  }

  /** The `k` big-endian bytes of a number. */
  function BigEndian(n: nat, k: nat): (s: Bytes)
    requires n < Pow256(k)
    ensures |s| == k
  {
    if k == 0 then [] else BigEndian(n / 256, k - 1) + [n % 256]
  }

  /** The number a big-endian byte string stands for. */
  function FromBigEndian(s: Bytes): (n: nat)
    ensures n < Pow256(|s|)
  {
    if s == [] then 0 else 256 * FromBigEndian(s[..|s| - 1]) + s[|s| - 1]
  }

  lemma {:induction false} BigEndianRoundTrip(n: nat, k: nat)
    requires n < Pow256(k)
    ensures FromBigEndian(BigEndian(n, k)) == n
  {
    if k > 0 {
      BigEndianRoundTrip(n / 256, k - 1);
      assert BigEndian(n, k)[..k - 1] == BigEndian(n / 256, k - 1);
    }
  }

  lemma {:induction false} FromBigEndianRoundTrip(s: Bytes)
    ensures BigEndian(FromBigEndian(s), |s|) == s
  {
    if s != [] {
      var init := s[..|s| - 1];
      FromBigEndianRoundTrip(init);
      assert FromBigEndian(s) / 256 == FromBigEndian(init);
      assert s == init + [s[|s| - 1]];
    }
  }

  /** The first byte of a big-endian number weighs the most. */
  lemma {:induction false} FirstByteWeighsMost(x: byte, s: Bytes)
    ensures FromBigEndian([x] + s) == x * Pow256(|s|) + FromBigEndian(s)
  {
    if s == [] {
      assert [x] + s == [x] && [x][..0] == [];
    } else {
      var init := s[..|s| - 1];
      FirstByteWeighsMost(x, init);
      assert ([x] + s)[..|s|] == [x] + init;
      assert 256 * (x * Pow256(|init|)) == x * Pow256(|s|);
    }
  }

  /** `u16::to_be_bytes`. */
  function Be2(n: u16): (s: Bytes)
    ensures |s| == 2
  {
    BigEndian(n, 2)
  }

  /** `u64::to_be_bytes`. */
  function Be8(n: u64): (s: Bytes)
    ensures |s| == 8 && FromBigEndian(s) == n
  {
    BigEndianRoundTrip(n, 8);
    BigEndian(n, 8)
  }

  /** `u64::from_be_bytes`. */
  function FromBe8(s: Bytes): (n: u64)
    requires |s| == 8
    ensures Be8(n) == s
  {
    FromBigEndianRoundTrip(s);
    FromBigEndian(s)
  }

  function Reverse(s: Bytes): (r: Bytes)
    ensures |r| == |s|
  {
    seq(|s|, i requires 0 <= i < |s| => s[|s| - 1 - i])
  }

  /** `u64::to_le_bytes`. */
  function Le8(n: u64): (s: Bytes)
    ensures |s| == 8
  {
    Reverse(Be8(n))
  }

  /** Little-endian bytes are the big-endian ones from the last to the first. */
  lemma LittleEndianOrder(n: u64, i: nat)
    requires i < 8
    ensures Le8(n)[i] == BigEndian(n, 8)[7 - i]
  {
  }

  lemma Le8IsInjective(m: u64, n: u64)
    requires Le8(m) == Le8(n)
    ensures m == n
  {
    assert Reverse(Le8(m)) == Be8(m) && Reverse(Le8(n)) == Be8(n);
  }

  function Zeros(k: nat): (s: Bytes)
    ensures |s| == k
  {
    seq(k, _ => 0)
  }

  /** The bytes of an ASCII label. */
  function Label(s: string): (r: Bytes)
    ensures |r| == |s|
  {
    seq(|s|, i requires 0 <= i < |s| => (s[i] as int) % 256)
  }
}
