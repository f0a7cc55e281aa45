/** The one-time key agreement and the X9.63 key derivation (section 3.6.1 of SEC 1), up
    to the session they start (Annex G of GSMA SGP.22 v2.6). */
module Kdf {
  import opened Octets
  import Channel

  type Digest = s: Bytes | |s| == 32 witness seq(32, i => 0)

  /** ECDH, the public key of a scalar, and SHA-256. The first two refuse what is not a
      scalar or a point. */
  datatype Agreement = Agreement(
    agree: (Bytes, Bytes) -> Option<Bytes>,
    publicKey: Bytes -> Option<Bytes>,
    sha256: Bytes -> Digest)

  /** Both ends of a key agreement reach one secret. */
  ghost predicate Commutes(k: Agreement) {
    forall a, b {:trigger k.publicKey(a), k.publicKey(b)} ::
      k.publicKey(a).Some? && k.publicKey(b).Some? ==>
        k.agree(a, k.publicKey(b).value) == k.agree(b, k.publicKey(a).value)
  }

  /** The law can be met, by an agreement that tells keys apart. */
  lemma CommutingAgreementExists() returns (k: Agreement)
    ensures Commutes(k)
    ensures forall a :: k.publicKey(a) == Some(a)
    ensures forall a, b :: k.agree(a, b).Some?
    ensures exists a, b :: k.agree(a, a) != k.agree(b, b)
  {
    var sum := (a: Bytes, b: Bytes) => Some([(BeNat(a) + BeNat(b)) % 256]);
    k := Agreement(sum, (a: Bytes) => Some(a), (m: Bytes) => Zeros(32));
    assert k.agree([], []) == Some([0]);
    BeNat1([1]);
    assert k.agree([1], [1]) == Some([2]);
  }

  const WRAP: nat := 0x1_0000_0000

  /** Block number i, counted from 1; the counter is a uint32_t. */
  function HashInput(z: Bytes, info: Bytes, i: nat): Bytes {
    z + Be32(i % WRAP) + info
  }

  function Stream(k: Agreement, z: Bytes, info: Bytes, blocks: nat): (r: Bytes)
    ensures |r| == 32 * blocks
  {
    if blocks == 0 then []
    else Stream(k, z, info, blocks - 1) + k.sha256(HashInput(z, info, blocks))
  }

  function Blocks(len: nat): nat {
    (len + 31) / 32
  }

  function Derive(k: Agreement, z: Bytes, info: Bytes, len: nat): (r: Bytes)
    ensures |r| == len
  {
    Stream(k, z, info, Blocks(len))[..len]
  }

  lemma {:induction false} StreamPrefix(k: Agreement, z: Bytes, info: Bytes, m: nat, n: nat)
    requires m <= n
    ensures Stream(k, z, info, n)[..32 * m] == Stream(k, z, info, m)
  {
    if m < n {
      StreamPrefix(k, z, info, m, n - 1);
    }
  }

  /** A shorter request is a prefix of a longer one. */
  lemma DerivePrefix(k: Agreement, z: Bytes, info: Bytes, m: nat, n: nat)
    requires m <= n
    ensures Derive(k, z, info, n)[..m] == Derive(k, z, info, m)
  {
    StreamPrefix(k, z, info, Blocks(m), Blocks(n));
    var s := Stream(k, z, info, Blocks(n));
    SliceOfSlice(s, 0, 32 * Blocks(m), 0, m);
    assert s[..32 * Blocks(m)][..m] == s[..m] == s[..n][..m];
  }

  /** Each whole 32-octet block of the output is the hash of the secret, that block's
      number counted from 1 as four octets, and the shared information. */
  lemma DeriveBlock(k: Agreement, z: Bytes, info: Bytes, len: nat, i: nat)
    requires 32 * (i + 1) <= len
    ensures Derive(k, z, info, len)[32 * i..32 * (i + 1)] == k.sha256(HashInput(z, info, i + 1))
  {
    var whole := 32 * (i + 1);
    DerivePrefix(k, z, info, whole, len);
    assert Blocks(whole) == i + 1;
    assert Derive(k, z, info, whole) == Stream(k, z, info, i + 1);
    SliceOfSlice(Derive(k, z, info, len), 0, whole, 32 * i, whole);
    assert Stream(k, z, info, i + 1)[32 * i..whole] == k.sha256(HashInput(z, info, i + 1));
  }

  /** The counter octets say the block number for every block of a request if and only if
      the request is within what the standard allows, 32 * (2^32 - 1) octets; past that
      the uint32_t wraps. */
  lemma CountersExactIff(len: nat)
    ensures (forall i :: 1 <= i <= Blocks(len) ==> BeNat(Be32(i % WRAP)) == i) <==>
            len <= 32 * (WRAP - 1)
  {
    if len <= 32 * (WRAP - 1) {
      forall i | 1 <= i <= Blocks(len)
        ensures BeNat(Be32(i % WRAP)) == i
      {
        Be32Value(i % WRAP);
      }
    } else {
      assert Blocks(len) >= WRAP;
      Be32Value(WRAP % WRAP);
      assert BeNat(Be32(WRAP % WRAP)) != WRAP;
    }
  }

  /** `produced` octets are out: `blocks` whole ones, or all that was wanted. */
  ghost predicate Emitted(k: Agreement, z: Bytes, info: Bytes, out: Bytes, produced: nat, blocks: nat) {
    && blocks <= Blocks(|out|)
    && produced == (if 32 * blocks <= |out| then 32 * blocks else |out|)
    && out[..produced] == Stream(k, z, info, blocks)[..produced]
  }

  lemma EmitBlock(k: Agreement, z: Bytes, info: Bytes, out: Bytes, out': Bytes, produced: nat, chunk: nat, blocks: nat)
    requires Emitted(k, z, info, out, produced, blocks)
    requires produced < |out| == |out'|
    requires chunk == if |out| - produced > 32 then 32 else |out| - produced
    requires out'[..produced] == out[..produced]
    requires out'[produced..produced + chunk] == k.sha256(HashInput(z, info, blocks + 1))[..chunk]
    ensures Emitted(k, z, info, out', produced + chunk, blocks + 1)
  {
    hide HashInput;
    assert out'[..produced + chunk] == out'[..produced] + out'[produced..produced + chunk];
  }

  lemma AllEmitted(k: Agreement, z: Bytes, info: Bytes, out: Bytes, produced: nat, blocks: nat)
    requires Emitted(k, z, info, out, produced, blocks) && produced >= |out|
    ensures out == Derive(k, z, info, |out|)
  {
    assert out[..produced] == out;
    assert blocks == Blocks(|out|);
  }

  lemma WrapOf(q: nat, r: nat)
    requires r < WRAP
    ensures (q * WRAP + r) % WRAP == r
  {
  }

  lemma CounterWraps(i: nat)
    ensures (i % WRAP + 1) % WRAP == (i + 1) % WRAP
  {
    var q, r := i / WRAP, i % WRAP;
    if r + 1 == WRAP {
      WrapOf(q + 1, 0);
      WrapOf(1, 0);
    } else {
      WrapOf(q, r + 1);
      WrapOf(0, r + 1);
    }
  }

  ghost predicate Scratch(buf: array<byte>, z: Bytes, info: Bytes)
    reads buf
  {
    buf.Length == |z| + 4 + |info| && buf[..|z|] == z && buf[|z| + 4..] == info
  }

  /** One round: rewrite the scratch buffer's four counter octets and hash it. */
  method HashRound(
    k: Agreement, buf: array<byte>, zLen: nat, counter: nat, ghost z: Bytes, ghost info: Bytes, ghost i: nat)
    returns (digest: Digest)
    requires Scratch(buf, z, info) && zLen == |z| && counter == i % WRAP
    modifies buf
    ensures Scratch(buf, z, info)
    ensures digest == k.sha256(HashInput(z, info, i))
  {
    CopyInto(Be32(counter), buf, zLen);
    assert buf[..] == HashInput(z, info, i);
    digest := k.sha256(buf[..]);
  }

  /** rsp_kdf_x963: one scratch buffer for every round, and a last chunk cut to what is
      still wanted. */
  method KdfX963(k: Agreement, z: Bytes, info: Bytes, out: array<byte>) returns (ret: int)
    modifies out
    ensures ret == 0
    ensures out[..] == Derive(k, z, info, out.Length)
  {
    hide Stream;
    if out.Length == 0 {
      assert out[..] == [];
      return 0;
    }
    var buf := new byte[|z| + 4 + |info|](_ => 0);
    CopyInto(z, buf, 0);
    CopyInto(info, buf, |z| + 4);
    assert buf[|z| + 4..] == info;
    var produced, counter := 0, 1;
    ghost var blocks := 0;
    while produced < out.Length
      invariant fresh(buf) && Scratch(buf, z, info)
      invariant Emitted(k, z, info, out[..], produced, blocks)
      invariant produced <= out.Length && counter == (blocks + 1) % WRAP
      decreases out.Length - produced
    {
      hide Emitted, HashInput, Scratch, Be32;
      var digest := HashRound(k, buf, |z|, counter, z, info, blocks + 1);
      var chunk := out.Length - produced;
      if chunk > 32 {
        chunk := 32;
      }
      ghost var before := out[..];
      CopyInto(digest[..chunk], out, produced);
      EmitBlock(k, z, info, before, out[..], produced, chunk, blocks);
      produced := produced + chunk;
      CounterWraps(blocks + 1);
      counter := (counter + 1) % WRAP;
      blocks := blocks + 1;
    }
    AllEmitted(k, z, info, out[..], produced, blocks);
    return 0;
  }

  // ---- the session ----

  /** '00 .. 01', the encryption counter's initial state. */
  const FIRST_COUNTER: Block := [0, 0, 0, 0, 0, 0, 0, 0, 0, 0, 0, 0, 0, 0, 0, 1]

  /** What one end derives: chaining value, S-ENC and S-MAC in that order, and the counter
      at its constant start. */
  function SessionInit(k: Agreement, secret: Bytes, peer: Bytes, info: Bytes): (r: Option<Channel.State>)
  {
    match k.agree(secret, peer)
    case None => None
    case Some(z) =>
      var keyData := Derive(k, z, info, 48);
      Some(Channel.State(keyData[16..32], keyData[32..48], keyData[..16], FIRST_COUNTER))
  }

  /** The three keys are the first and second half of the first digest and the first half
      of the second. */
  lemma SessionKeysAre(k: Agreement, secret: Bytes, peer: Bytes, info: Bytes, z: Bytes)
    requires k.agree(secret, peer) == Some(z)
    ensures var s := SessionInit(k, secret, peer, info).value;
            var d1, d2 := k.sha256(z + [0, 0, 0, 1] + info), k.sha256(z + [0, 0, 0, 2] + info);
            s.chain == d1[..16] && s.sEnc == d1[16..] && s.sMac == d2[..16] && BeNat(s.counter) == 1
  {
    var keyData := Derive(k, z, info, 48);
    DeriveBlock(k, z, info, 48, 0);
    var d1: Bytes, d2: Bytes := k.sha256(HashInput(z, info, 1)), k.sha256(HashInput(z, info, 2));
    assert Stream(k, z, info, 1) == [] + d1;
    assert keyData == (d1 + d2)[..48];
    assert keyData[32..48] == d2[..16];
    FirstCounterIsOne();
  }

  lemma FirstCounterIsOne()
    ensures BeNat(FIRST_COUNTER) == 1
  {
    LeadingZero(FIRST_COUNTER[..15]);
  }

  lemma {:induction false} LeadingZero(s: Bytes)
    requires forall i :: 0 <= i < |s| ==> s[i] == 0
    ensures BeNat(s) == 0
  {
    if s != [] {
      LeadingZero(s[..|s| - 1]);
    }
  }
}
