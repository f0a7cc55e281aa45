/** Octet strings, and the big-endian reading of them that every length, counter and
    tag in the library shares. */
module Octets {

  type byte = x: int | 0 <= x < 256

  type Bytes = seq<byte>

  /** One AES block, or one AES-128 key. */
  type Block = s: Bytes | |s| == 16 witness [0, 0, 0, 0, 0, 0, 0, 0, 0, 0, 0, 0, 0, 0, 0, 0]

  datatype Option<+T> = None | Some(value: T)

  /** The library's three-way return value: 0, -1 ("the question was asked and the
      answer is no") and -2 ("the question was never reached"). */
  datatype Answer<+T> = Yes(value: T) | No | Unreached
  {
    function Code(): int {
      match this
      case Yes(_) => 0
      case No => -1
      case Unreached => -2
    }
  }

  const SIZE_MAX: nat := 0xFFFF_FFFF_FFFF_FFFF

  function Zeros(n: nat): (z: Bytes)
    ensures |z| == n
    ensures forall i :: 0 <= i < n ==> z[i] == 0
  {
    seq(n, i => 0)
  }

  function Concat(ss: seq<Bytes>): Bytes {
    if ss == [] then [] else ss[0] + Concat(ss[1..])
  }

  // ---- big-endian naturals ----

  function BeNat(s: Bytes): nat {
    if s == [] then 0 else BeNat(s[..|s| - 1]) * 256 + s[|s| - 1]
  }

  function Pow256(n: nat): (p: nat)
    ensures p >= 1
  {
    if n == 0 then 1 else 256 * Pow256(n - 1)
  }

  lemma {:induction false} BeNatBound(s: Bytes)
    ensures BeNat(s) < Pow256(|s|)
  {
    if s != [] {
      BeNatBound(s[..|s| - 1]);
    }
  }

  /** Octet strings of one length are told apart by their value. */
  lemma {:induction false} BeNatInjective(s: Bytes, t: Bytes)
    requires |s| == |t|
    requires BeNat(s) == BeNat(t)
    ensures s == t
  {
    if s != [] {
      var s', t' := s[..|s| - 1], t[..|t| - 1];
      assert BeNat(s') == BeNat(t') && s[|s| - 1] == t[|t| - 1];
      BeNatInjective(s', t');
      assert s == s' + [s[|s| - 1]] && t == t' + [t[|t| - 1]];
    }
  }

  lemma {:induction false} Pow256Monotone(m: nat, n: nat)
    requires m <= n
    ensures Pow256(m) <= Pow256(n)
  {
    if m < n {
      Pow256Monotone(m, n - 1);
    }
  }

  lemma BeNat1(s: Bytes)
    requires |s| == 1
    ensures BeNat(s) == s[0]
  {
    assert s[..0] == [];
  }

  lemma BeNat2(s: Bytes)
    requires |s| == 2
    ensures BeNat(s) == 0x100 * (s[0] as nat) + s[1]
  {
    assert s[..1][0] == s[0];
    BeNat1(s[..1]);
  }

  lemma BeNat3(s: Bytes)
    requires |s| == 3
    ensures BeNat(s) == 0x1_0000 * (s[0] as nat) + 0x100 * (s[1] as nat) + s[2]
  {
    assert s[..2][0] == s[0] && s[..2][1] == s[1];
    BeNat2(s[..2]);
  }

  lemma BeNat4(s: Bytes)
    requires |s| == 4
    ensures BeNat(s) == 0x100_0000 * (s[0] as nat) + 0x1_0000 * (s[1] as nat) + 0x100 * (s[2] as nat) + s[3]
  {
    assert s[..3][0] == s[0] && s[..3][1] == s[1] && s[..3][2] == s[2];
    BeNat3(s[..3]);
  }

  /** The four octets of a 32-bit quantity, most significant first. */
  function Be32(n: nat): (s: Bytes)
    requires n <= 0xFFFF_FFFF
    ensures |s| == 4
  {
    [n / 0x100_0000, n / 0x1_0000 % 256, n / 0x100 % 256, n % 256]
  }

  lemma SplitOctets(n: nat)
    ensures n == n / 256 * 256 + n % 256
    ensures n / 256 / 256 == n / 0x1_0000
    ensures n / 0x1_0000 / 256 == n / 0x100_0000
  {
  }

  lemma Be32Value(n: nat)
    requires n <= 0xFFFF_FFFF
    ensures BeNat(Be32(n)) == n
  {
    BeNat4(Be32(n));
    SplitOctets(n);
    SplitOctets(n / 256);
    SplitOctets(n / 0x1_0000);
  }

  // ---- exclusive or ----

  /** Bitwise exclusive or of the low `bits` bits. */
  function XorBits(a: nat, b: nat, bits: nat): nat {
    if bits == 0 then 0
    else 2 * XorBits(a / 2, b / 2, bits - 1) + (if a % 2 == b % 2 then 0 else 1)
  }

  function Pow2(n: nat): (p: nat)
    ensures p >= 1
  {
    if n == 0 then 1 else 2 * Pow2(n - 1)
  }

  lemma {:induction false} XorBitsCancels(a: nat, b: nat, bits: nat)
    requires a < Pow2(bits)
    ensures XorBits(a, b, bits) < Pow2(bits)
    ensures XorBits(XorBits(a, b, bits), b, bits) == a
  {
    if bits > 0 {
      XorBitsCancels(a / 2, b / 2, bits - 1);
      var x := XorBits(a, b, bits);
      assert x / 2 == XorBits(a / 2, b / 2, bits - 1);
    }
  }

  lemma Pow2Of8()
    ensures Pow2(8) == 256
  {
    assert Pow2(4) == 16;
  }

  function Xor8(a: byte, b: byte): byte {
    Pow2Of8();
    XorBitsCancels(a, b, 8);
    XorBits(a, b, 8)
  }

  lemma Xor8Cancels(a: byte, b: byte)
    ensures Xor8(Xor8(a, b), b) == a
  {
    Pow2Of8();
    XorBitsCancels(a, b, 8);
  }

  function Xor(a: Block, b: Block): (r: Block) {
    seq(16, i requires 0 <= i < 16 => Xor8(a[i], b[i]))
  }

  lemma XorCancels(a: Block, b: Block)
    ensures Xor(Xor(a, b), b) == a
  {
    forall i | 0 <= i < 16
      ensures Xor(Xor(a, b), b)[i] == a[i]
    {
      Xor8Cancels(a[i], b[i]);
    }
  }

  lemma SliceOfSlice<T>(s: seq<T>, a: nat, b: nat, i: nat, j: nat)
    requires a <= b <= |s| && i <= j <= b - a
    ensures s[a..b][i..j] == s[a + i..a + j]
  {
    assert |s[a..b][i..j]| == |s[a + i..a + j]|;
    forall k | 0 <= k < j - i
      ensures s[a..b][i..j][k] == s[a + i..a + j][k]
    {
      assert s[a..b][i..j][k] == s[a..b][i + k] == s[a + (i + k)];
    }
  }

  lemma SliceOfDrop<T>(s: seq<T>, a: nat, i: nat, j: nat)
    requires a <= i <= j <= |s|
    ensures s[a..][i - a..j - a] == s[i..j]
  {
    SliceOfSlice(s, a, |s|, i - a, j - a);
    assert s[a..|s|] == s[a..];
  }

  // ---- the C library's memcpy into a caller's buffer ----

  method CopyInto(src: Bytes, dst: array<byte>, off: nat)
    requires off + |src| <= dst.Length
    modifies dst
    ensures dst[..off] == old(dst[..off])
    ensures dst[off..off + |src|] == src
    ensures dst[off + |src|..] == old(dst[off + |src|..])
  {
    forall i | 0 <= i < |src| {
      dst[off + i] := src[i];
    }
  }
}
