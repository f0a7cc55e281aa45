/** The one length rule of src/rsp_internal.h: the octets written on the wire and the
    octets covered by the SCP03t MAC both come from it. */
module DerLength {
  import opened Octets

  /** The longest content the four-octet long form can announce. */
  const MAX_LENGTH: nat := 0xFFFF_FFFF

  const MAX_OCTETS: nat := 5

  function LengthOctets(n: nat): (o: Bytes)
    requires n <= MAX_LENGTH
    ensures 1 <= |o| <= MAX_OCTETS
  {
    if n < 0x80 then [n]
    else if n <= 0xFF then [0x81, n]
    else if n <= 0xFFFF then [0x82, n / 0x100, n % 256]
    else if n <= 0xFF_FFFF then [0x83, n / 0x1_0000, n / 0x100 % 256, n % 256]
    else [0x84] + Be32(n)
  }

  /** `o` is a definite-length field saying n, minimal or not (sections 8.1.3.3 to
      8.1.3.5 of ITU-T X.690). */
  predicate IsDefiniteForm(o: Bytes, n: nat) {
    if |o| <= 1 then |o| == 1 && o[0] < 0x80 && o[0] == n
    else 0x80 < o[0] < 0xFF && |o| == 1 + (o[0] - 0x80) && BeNat(o[1..]) == n
  }

  /** Read the definite-length field at the front of p: its value and its size. The
      indefinite form 0x80 and the reserved first octet 0xFF are refused. */
  function FetchLength(p: Bytes): (r: Option<(nat, nat)>) {
    if p == [] then None
    else if p[0] < 0x80 then Some((p[0], 1))
    else if p[0] == 0x80 || p[0] == 0xFF then None
    else
      var k := p[0] - 0x80;
      if |p| < 1 + k then None else Some((BeNat(p[1..1 + k]), 1 + k))
  }

  /** The reader accepts exactly the definite forms, at exactly their own size. */
  lemma FetchLengthReadsDefiniteForms(p: Bytes, n: nat, k: nat)
    ensures FetchLength(p) == Some((n, k)) <==> k <= |p| && IsDefiniteForm(p[..k], n)
  {
    if 1 < k <= |p| {
      assert p[..k][1..] == p[1..k];
    }
  }

  lemma FetchLengthTruncated(p: Bytes, m: nat)
    requires m <= |p|
    ensures FetchLength(p[..m]) ==
            match FetchLength(p)
            case Some((n, k)) => if k <= m then Some((n, k)) else None
            case None => None
  {
    if p != [] && 0x80 < p[0] < 0xFF && 1 + (p[0] - 0x80) <= m {
      var k := p[0] - 0x80;
      assert p[..m][1..1 + k] == p[1..1 + k];
    }
  }

  lemma LengthOctetsDefinite(n: nat)
    requires n <= MAX_LENGTH
    ensures IsDefiniteForm(LengthOctets(n), n)
  {
    var o := LengthOctets(n);
    SplitOctets(n);
    if |o| == 2 {
      BeNat1(o[1..]);
    } else if |o| == 3 {
      BeNat2(o[1..]);
    } else if |o| == 4 {
      SplitOctets(n / 256);
      BeNat3(o[1..]);
    } else if |o| == 5 {
      Be32Value(n);
      assert o[1..] == Be32(n);
    }
  }

  lemma Pow256Values()
    ensures Pow256(0) == 1 && Pow256(1) == 0x100 && Pow256(2) == 0x1_0000 && Pow256(3) == 0x100_0000
    ensures Pow256(7) == 0x100_0000_0000_0000
  {
    assert Pow256(2) == 256 * Pow256(1);
    assert Pow256(3) == 256 * Pow256(2);
    assert Pow256(5) == 256 * Pow256(4);
    assert Pow256(7) == 256 * Pow256(6);
  }

  lemma ShortFormsAreSmall(k: nat, size: nat, n: nat, v: nat)
    requires 2 <= k < size
    requires n <= MAX_LENGTH && size == |LengthOctets(n)| && v < Pow256(k - 1)
    ensures v < n
  {
    Pow256Values();
    Pow256Monotone(k - 1, size - 2);
  }

  /** The encoder's output is the unique shortest definite form of its value. */
  lemma LengthOctetsMinimal(n: nat, o: Bytes)
    requires n <= MAX_LENGTH
    requires IsDefiniteForm(o, n)
    ensures |LengthOctets(n)| < |o| || LengthOctets(n) == o
  {
    var e := LengthOctets(n);
    LengthOctetsDefinite(n);
    if |o| == 1 {
      assert o == [n];
    } else {
      Pow256Values();
      BeNatBound(o[1..]);
      if |o| == |e| {
        BeNatInjective(o[1..], e[1..]);
        assert o == [o[0]] + o[1..] && e == [e[0]] + e[1..];
      } else if |o| < |e| {
        ShortFormsAreSmall(|o|, |e|, n, BeNat(o[1..]));
      }
    }
  }

  /** No definite form is a proper prefix of another: a length field ends in one place
      whatever follows it. */
  lemma DefiniteFormsPrefixFree(o: Bytes, m: nat, x: Bytes, p: Bytes, n: nat, y: Bytes)
    requires IsDefiniteForm(o, m) && IsDefiniteForm(p, n)
    requires o + x == p + y
    ensures o == p && m == n && x == y
  {
    assert (o + x)[..|o|] == o && (p + y)[..|p|] == p;
    FetchLengthReadsDefiniteForms(o + x, m, |o|);
    FetchLengthReadsDefiniteForms(p + y, n, |p|);
    assert x == (o + x)[|o|..] && y == (p + y)[|p|..];
  }

  lemma LengthOctetsInjective(m: nat, x: Bytes, n: nat, y: Bytes)
    requires m <= MAX_LENGTH && n <= MAX_LENGTH
    requires LengthOctets(m) + x == LengthOctets(n) + y
    ensures m == n && x == y
  {
    LengthOctetsDefinite(m);
    LengthOctetsDefinite(n);
    DefiniteFormsPrefixFree(LengthOctets(m), m, x, LengthOctets(n), n, y);
  }

  lemma FetchEncodedLength(n: nat, rest: Bytes)
    requires n <= MAX_LENGTH
    ensures FetchLength(LengthOctets(n) + rest) == Some((n, |LengthOctets(n)|))
  {
    var o := LengthOctets(n);
    LengthOctetsDefinite(n);
    assert (o + rest)[..|o|] == o;
    FetchLengthReadsDefiniteForms(o + rest, n, |o|);
  }

  /** rsp_der_length_octets: fills `out`, reports how many octets it wrote, and refuses
      exactly the lengths past the four-octet form. */
  method EncodeLength(len: nat, out: array<byte>) returns (ret: int, n: nat)
    requires len <= SIZE_MAX
    requires out.Length == MAX_OCTETS
    modifies out
    ensures ret == if len <= 0xFFFF_FFFF then 0 else -1
    ensures ret == 0 ==> n <= MAX_OCTETS && out[..n] == LengthOctets(len)
    ensures ret != 0 ==> out[..] == old(out[..])
  {
    ret, n := 0, 0;
    if len < 0x80 {
      out[0] := len;
      n := 1;
    } else if len <= 0xFF {
      out[0], out[1] := 0x81, len;
      n := 2;
    } else if len <= 0xFFFF {
      out[0], out[1], out[2] := 0x82, len / 0x100, len % 256;
      n := 3;
    } else if len <= 0xFF_FFFF {
      out[0], out[1], out[2], out[3] := 0x83, len / 0x1_0000, len / 0x100 % 256, len % 256;
      n := 4;
    } else if len <= MAX_LENGTH {
      out[0], out[1], out[2] := 0x84, len / 0x100_0000, len / 0x1_0000 % 256;
      out[3], out[4] := len / 0x100 % 256, len % 256;
      n := 5;
    } else {
      ret := -1;
    }
  }
}
