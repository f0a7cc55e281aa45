/** AES-128 as a keyed permutation, CMAC as an unexplained function, and what the library
    builds on them: CBC and the '80 00 .. 00' padding. */
module Cipher {
  import opened Octets

  /** The primitives the channel calls, each a function of key and input. Nothing is
      assumed of `cmac`. */
  datatype Suite = Suite(
    enc: (Block, Block) -> Block,
    dec: (Block, Block) -> Block,
    cmac: (Block, Bytes) -> Block)

  /** Encryption and decryption under one key undo each other. */
  ghost predicate Lawful(c: Suite) {
    forall k: Block, b: Block :: c.dec(k, c.enc(k, b)) == b && c.enc(k, c.dec(k, b)) == b
  }

  /** The laws can be met. */
  lemma LawfulSuiteExists() returns (c: Suite)
    ensures Lawful(c)
  {
    c := Suite((k: Block, b: Block) => Xor(b, k), (k: Block, b: Block) => Xor(b, k), (k: Block, m: Bytes) => k);
    forall k: Block, b: Block
      ensures c.dec(k, c.enc(k, b)) == b && c.enc(k, c.dec(k, b)) == b
    {
      XorCancels(b, k);
    }
  }

  // ---- cipher block chaining ----

  function CbcEncrypt(c: Suite, key: Block, iv: Block, data: Bytes): (r: Bytes)
    requires |data| % 16 == 0
    ensures |r| == |data|
    decreases |data|
  {
    if data == [] then []
    else
      var block := c.enc(key, Xor(data[..16], iv));
      block + CbcEncrypt(c, key, block, data[16..])
  }

  function CbcDecrypt(c: Suite, key: Block, iv: Block, data: Bytes): (r: Bytes)
    requires |data| % 16 == 0
    ensures |r| == |data|
    decreases |data|
  {
    if data == [] then []
    else Xor(c.dec(key, data[..16]), iv) + CbcDecrypt(c, key, data[..16], data[16..])
  }

  /** Chaining, block by block: each ciphertext block is the encryption of its plaintext
      block xored with the ciphertext block before it, the first with the initial value. */
  lemma {:induction false} CbcBlock(c: Suite, key: Block, iv: Block, data: Bytes, i: nat)
    requires |data| % 16 == 0 && 16 * (i + 1) <= |data|
    ensures var r := CbcEncrypt(c, key, iv, data);
            r[16 * i..16 * (i + 1)] ==
            c.enc(key, Xor(data[16 * i..16 * (i + 1)], if i == 0 then iv else r[16 * (i - 1)..16 * i]))
    decreases i
  {
    var block := c.enc(key, Xor(data[..16], iv));
    var r, rest := CbcEncrypt(c, key, iv, data), CbcEncrypt(c, key, block, data[16..]);
    assert r == block + rest;
    if i > 0 {
      CbcBlock(c, key, block, data[16..], i - 1);
      assert r[16..] == rest;
      SliceOfDrop(r, 16, 16 * i, 16 * (i + 1));
      SliceOfDrop(data, 16, 16 * i, 16 * (i + 1));
      if i == 1 {
        assert r[0..16] == block;
      } else {
        SliceOfDrop(r, 16, 16 * (i - 1), 16 * i);
      }
    }
  }

  lemma {:induction false} CbcDecryptsEncrypted(c: Suite, key: Block, iv: Block, data: Bytes)
    requires Lawful(c) && |data| % 16 == 0
    ensures CbcDecrypt(c, key, iv, CbcEncrypt(c, key, iv, data)) == data
    decreases |data|
  {
    if data != [] {
      var head: Block := data[..16];
      var block := c.enc(key, Xor(head, iv));
      var r := CbcEncrypt(c, key, iv, data);
      assert r[..16] == block && r[16..] == CbcEncrypt(c, key, block, data[16..]);
      CbcDecryptsEncrypted(c, key, block, data[16..]);
      XorCancels(head, iv);
      assert data == head + data[16..];
    }
  }

  lemma {:induction false} CbcEncryptsDecrypted(c: Suite, key: Block, iv: Block, data: Bytes)
    requires Lawful(c) && |data| % 16 == 0
    ensures CbcEncrypt(c, key, iv, CbcDecrypt(c, key, iv, data)) == data
    decreases |data|
  {
    if data != [] {
      var head: Block := data[..16];
      var plain := Xor(c.dec(key, head), iv);
      var r := CbcDecrypt(c, key, iv, data);
      assert r[..16] == plain && r[16..] == CbcDecrypt(c, key, head, data[16..]);
      CbcEncryptsDecrypted(c, key, head, data[16..]);
      XorCancels(c.dec(key, head), iv);
      assert data == head + data[16..];
    }
  }

  // ---- padding (section B.2.3 of GlobalPlatform Card Specification v2.3.1) ----

  /** One '80' and the fewest '00' that reach a multiple of sixteen. */
  function Pad(p: Bytes): (r: Bytes)
    ensures |r| % 16 == 0 && |p| < |r| <= |p| + 16
  {
    p + [0x80] + Zeros(15 - |p| % 16)
  }

  /** The marker is the last octet of padding that is not zero. */
  lemma PadShape(p: Bytes)
    ensures Pad(p)[|p|] == 0x80 && Pad(p)[..|p|] == p
    ensures forall i :: |p| < i < |Pad(p)| ==> Pad(p)[i] == 0
  {
  }

  lemma PadInjective(p: Bytes, q: Bytes)
    requires Pad(p) == Pad(q)
    ensures p == q
  {
    PadShape(p);
    PadShape(q);
  }

  /** The plaintext that padding made d from, if there is one. */
  ghost function Unpad(d: Bytes): (r: Option<Bytes>)
    ensures r.Some? <==> exists p :: d == Pad(p)
    ensures r.Some? ==> d == Pad(r.value)
  {
    if exists p :: d == Pad(p) then
      var p :| d == Pad(p);
      Some(p)
    else None
  }

  lemma UnpadPadded(p: Bytes)
    ensures Unpad(Pad(p)) == Some(p)
  {
    PadInjective(p, Unpad(Pad(p)).value);
  }

  /** The backward scan of rsp_unprotect: over '00' octets, at most one block deep, to the
      '80' marker. It finds the padded plaintext's length exactly when there is one. */
  method ScanPadding(padded: array<byte>) returns (ok: bool, n: nat)
    requires padded.Length >= 16 && padded.Length % 16 == 0
    ensures ok == Unpad(padded[..]).Some?
    ensures ok ==> n <= padded.Length && Unpad(padded[..]) == Some(padded[..n])
  {
    hide Unpad;
    var minIdx := padded.Length - 16;
    n := padded.Length;
    while n > minIdx && padded[n - 1] == 0x00
      invariant minIdx <= n <= padded.Length
      invariant forall i :: n <= i < padded.Length ==> padded[i] == 0
    {
      n := n - 1;
    }
    ok := !(n == minIdx || padded[n - 1] != 0x80);
    if ok {
      n := n - 1;
      assert padded[..] == Pad(padded[..n]);
      UnpadPadded(padded[..n]);
    } else {
      NoMarker(padded[..], n);
    }
  }

  /** Zeros back to n, and no marker there within the last block: nothing pads to this. */
  lemma NoMarker(d: Bytes, n: nat)
    requires 16 <= |d| && |d| - 16 <= n <= |d|
    requires forall i :: n <= i < |d| ==> d[i] == 0
    requires n == |d| - 16 || (d[n - 1] != 0 && d[n - 1] != 0x80)
    ensures Unpad(d).None?
  {
    hide Pad;
    forall p
      ensures d != Pad(p)
    {
      PadShape(p);
    }
  }
}
