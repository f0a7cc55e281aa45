/** The session object of src/rsp_crypto.c and the calls that update it in place, each
    proved against the value-level channel. */
module Scp03t {
  import opened Octets
  import opened DerLength
  import opened Cipher
  import opened Channel
  import Kdf

  /** The carry has run down to index i: what is left to do is to increment the octets
      before it. */
  ghost predicate Carried(was: Bytes, now: Bytes, i: nat) {
    i <= |was| == |now| && now[..i] == was[..i] && Increment(was) == Increment(was[..i]) + now[i..]
  }

  lemma CarryStep(was: Bytes, now: Bytes, next: Bytes, i: nat)
    requires Carried(was, now, i + 1)
    requires next == now[i := (now[i] as int + 1) % 256]
    ensures if next[i] != 0 then next == Increment(was) else Carried(was, next, i)
  {
    var front := was[..i + 1];
    assert now[i] == now[..i + 1][i] == was[i];
    assert front[..i] == was[..i] && front[i] == was[i];
    assert next[..i] == now[..i + 1][..i] == was[..i];
    assert next == was[..i] + [next[i]] + now[i + 1..];
    assert next[i..] == [next[i]] + now[i + 1..];
    assert Increment(was[..i]) + [0] + now[i + 1..] == Increment(was[..i]) + ([0] + now[i + 1..]);
  }

  lemma CarryEnds(was: Bytes, now: Bytes)
    ensures Carried(was, was, |was|)
    ensures Carried(was, now, 0) ==> now == Increment(was)
  {
    assert was[..|was|] == was && was[|was|..] == [];
    assert was[..0] == [] && now[0..] == now;
  }

  /** scp03t_counter_advance: the byte-carry loop, in place. */
  method AdvanceCounter(counter: array<byte>)
    modifies counter
    ensures counter[..] == Increment(old(counter[..]))
  {
    hide Increment, Carried;
    var i := counter.Length;
    ghost var was := counter[..];
    CarryEnds(was, was);
    while i > 0
      invariant 0 <= i <= counter.Length
      invariant Carried(was, counter[..], i)
    {
      i := i - 1;
      ghost var now := counter[..];
      counter[i] := (counter[i] as int + 1) % 256;
      CarryStep(was, now, counter[..], i);
      if counter[i] != 0 {
        return;
      }
    }
    CarryEnds(was, counter[..]);
  }

  /** scp03t_mac: assembles chain, tag, length octets and data in one buffer and MACs it;
      refuses a length past the four-octet form. */
  method ComputeMac(c: Suite, sMac: Block, chain: Block, tag: byte, data: Bytes) returns (ret: int, mac: Block)
    requires |data| + MAC_LEN <= SIZE_MAX
    ensures ret == if |data| + MAC_LEN <= MAX_LENGTH then 0 else -1
    ensures ret == 0 ==> mac == c.cmac(sMac, MacInput(chain, tag, data))
  {
    hide LengthOctets;
    mac := chain;
    var lengthOctets := new byte[MAX_OCTETS](_ => 0);
    var n;
    ret, n := EncodeLength(|data| + MAC_LEN, lengthOctets);
    if ret != 0 {
      return;
    }
    var buf := AssembleMacInput(chain, tag, lengthOctets[..n], data);
    assert buf[..] == MacInput(chain, tag, data);
    mac := c.cmac(sMac, buf[..]);
  }

  /** The MAC input in one buffer, part by part. */
  method AssembleMacInput(chain: Block, tag: byte, lengthOctets: Bytes, data: Bytes) returns (buf: array<byte>)
    ensures fresh(buf) && buf[..] == chain + [tag] + lengthOctets + data
  {
    var n := |lengthOctets|;
    buf := new byte[16 + 1 + n + |data|](_ => 0);
    CopyInto(chain, buf, 0);
    buf[16] := tag;
    assert buf[..17] == chain + [tag];
    CopyInto(lengthOctets, buf, 17);
    assert buf[..17 + n] == buf[..17] + lengthOctets;
    CopyInto(data, buf, 17 + n);
    assert buf[..] == buf[..17 + n] + data;
  }

  /** rsp_session_t. */
  class Session {
    var sEnc: Block
    var sMac: Block
    var chain: Block
    const encCounter: array<byte>

    ghost predicate Valid()
      reads this
    {
      encCounter.Length == 16
    }

    function Value(): State
      reads this, encCounter
      requires Valid()
    {
      State(sEnc, sMac, chain, encCounter[..])
    }

    /** `memset(s, 0, sizeof *s)`. */
    constructor ()
      ensures Valid() && fresh(encCounter)
      ensures Value() == State(Zeros(16), Zeros(16), Zeros(16), Zeros(16))
    {
      sEnc, sMac, chain := Zeros(16), Zeros(16), Zeros(16);
      encCounter := new byte[16](_ => 0);
      new;
      assert encCounter[..] == Zeros(16);
    }

    /** rsp_session_init: on success the derived session, on failure all zeros. */
    method Init(k: Kdf.Agreement, otsk: Bytes, otpk: Bytes, sharedInfo: Bytes) returns (ret: int)
      requires Valid()
      modifies this, encCounter
      ensures ret == if Kdf.SessionInit(k, otsk, otpk, sharedInfo).Some? then 0 else -1
      ensures ret == 0 ==> Value() == Kdf.SessionInit(k, otsk, otpk, sharedInfo).value
      ensures ret != 0 ==> Value() == State(Zeros(16), Zeros(16), Zeros(16), Zeros(16))
    {
      sEnc, sMac, chain := Zeros(16), Zeros(16), Zeros(16);
      CopyInto(Zeros(16), encCounter, 0);
      assert encCounter[..] == Zeros(16);
      var z := k.agree(otsk, otpk);
      if z.None? {
        return -1;
      }
      var keyData := new byte[48](_ => 0);
      ret := Kdf.KdfX963(k, z.value, sharedInfo, keyData);
      chain, sEnc, sMac := keyData[..16], keyData[16..32], keyData[32..48];
      encCounter[15] := 0x01;
      assert encCounter[..] == Kdf.FIRST_COUNTER;
    }

    /** rsp_protect. Refused, with the session as it was, exactly when the segment does not
        fit the caller's buffer or the length field. */
    method ProtectSegment(c: Suite, plain: Bytes, tag: byte, out: array<byte>) returns (n: int)
      requires Valid() && out != encCounter
      requires |plain| <= SIZE_MAX
      modifies `chain, encCounter, out
      ensures n >= 0 <==> Protectable(Encrypted, plain) && BodySize(Encrypted, |plain|) + MAC_LEN <= out.Length
      ensures n < 0 ==> n == -1 && Value() == old(Value())
      ensures n >= 0 ==>
                && n <= out.Length
                && Protect(c, old(Value()), Encrypted, tag, plain) == Protected(out[..n], Value())
                && out[n..] == old(out[n..])
    {
      if |plain| > SIZE_MAX - 16 - MAC_LEN {
        return -1;
      }
      var padLen := 16 - |plain| % 16;
      var paddedLen := |plain| + padLen;
      if paddedLen + MAC_LEN > out.Length {
        return -1;
      }
      var padded := plain + [0x80] + Zeros(padLen - 1);
      assert padded == Pad(plain);
      var icv := c.enc(sEnc, encCounter[..]);
      var body := CbcEncrypt(c, sEnc, icv, padded);
      ghost var was := out[..];
      CopyInto(body, out, 0);
      assert out[..paddedLen] == body && out[paddedLen..] == was[paddedLen..];
      var ret, mac := ComputeMac(c, sMac, chain, tag, body);
      if ret != 0 {
        return -1;
      }
      CopyInto(mac[..MAC_LEN], out, paddedLen);
      assert out[paddedLen + MAC_LEN..] == was[paddedLen..][MAC_LEN..];
      chain := mac;
      AdvanceCounter(encCounter);
      n := paddedLen + MAC_LEN;
      assert out[..n] == out[..paddedLen] + out[paddedLen..n];
      assert out[n..] == was[n..];
    }

    /** rsp_protect_mac_only. */
    method ProtectMacOnly(c: Suite, plain: Bytes, tag: byte, out: array<byte>) returns (n: int)
      requires Valid() && out != encCounter
      requires |plain| <= SIZE_MAX
      modifies `chain, encCounter, out
      ensures n >= 0 <==> Protectable(MacOnly, plain) && |plain| + MAC_LEN <= out.Length
      ensures n < 0 ==> n == -1 && Value() == old(Value()) && out[..] == old(out[..])
      ensures n >= 0 ==>
                && n <= out.Length
                && Protect(c, old(Value()), MacOnly, tag, plain) == Protected(out[..n], Value())
                && out[n..] == old(out[n..])
    {
      if |plain| > SIZE_MAX - MAC_LEN {
        return -1;
      }
      if |plain| + MAC_LEN > out.Length {
        return -1;
      }
      var ret, mac := ComputeMac(c, sMac, chain, tag, plain);
      if ret != 0 {
        return -1;
      }
      ghost var was := out[..];
      CopyInto(plain, out, 0);
      assert out[..|plain|] == plain && out[|plain|..] == was[|plain|..];
      CopyInto(mac[..MAC_LEN], out, |plain|);
      assert out[|plain| + MAC_LEN..] == was[|plain|..][MAC_LEN..];
      chain := mac;
      AdvanceCounter(encCounter);
      n := |plain| + MAC_LEN;
      assert out[..n] == out[..|plain|] + out[|plain|..n];
      assert out[n..] == was[n..];
    }

    /** What either receiving call promises: the channel's own answer, except that a
        plaintext the caller's buffer cannot hold is -2; only an accepted segment moves
        the session or writes to the buffer. */
    ghost predicate Answers(a: Answer<Opened>, capacity: nat, n: int, before: State, out: seq<byte>, was: seq<byte>)
      reads this, encCounter
      requires Valid() && |out| == |was| == capacity
    {
      match a
      case Unreached => n == -2 && Value() == before && out == was
      case No => n == -1 && Value() == before && out == was
      case Yes(o) =>
        if |o.plain| > capacity then n == -2 && Value() == before && out == was
        else n == |o.plain| && Value() == o.next && out[..n] == o.plain && out[n..] == was[n..]
    }

    /** rsp_unprotect. */
    method UnprotectSegment(c: Suite, seg: Bytes, tag: byte, out: array<byte>) returns (n: int)
      requires Valid() && out != encCounter
      requires |seg| <= SIZE_MAX
      modifies `chain, encCounter, out
      ensures var a := Unprotect(c, old(Value()), Encrypted, tag, seg);
              Answers(a, out.Length, n, old(Value()), out[..], old(out[..]))
    {
      if |seg| < 16 + MAC_LEN || (|seg| - MAC_LEN) % 16 != 0 {
        return -2;
      }
      var body := seg[..|seg| - MAC_LEN];
      var ret, mac := ComputeMac(c, sMac, chain, tag, body);
      if ret != 0 {
        return -2;
      }
      if mac[..MAC_LEN] != seg[|seg| - MAC_LEN..] {
        return -1;
      }
      var icv := c.enc(sEnc, encCounter[..]);
      var padded := new byte[|body|](_ => 0);
      CopyInto(CbcDecrypt(c, sEnc, icv, body), padded, 0);
      assert padded[..] == CbcDecrypt(c, sEnc, icv, body);
      var ok, plainLen := ScanPadding(padded);
      if !ok {
        return -1;
      }
      if plainLen > out.Length {
        return -2;
      }
      CopyInto(padded[..plainLen], out, 0);
      chain := mac;
      AdvanceCounter(encCounter);
      n := plainLen;
    }

    /** rsp_unprotect_mac_only. */
    method UnprotectMacOnly(c: Suite, seg: Bytes, tag: byte, out: array<byte>) returns (n: int)
      requires Valid() && out != encCounter
      requires |seg| <= SIZE_MAX
      modifies `chain, encCounter, out
      ensures Answers(Unprotect(c, old(Value()), MacOnly, tag, seg), out.Length, n, old(Value()), out[..], old(out[..]))
    {
      if |seg| < MAC_LEN {
        return -2;
      }
      var plainLen := |seg| - MAC_LEN;
      var ret, mac := ComputeMac(c, sMac, chain, tag, seg[..plainLen]);
      if ret != 0 {
        return -2;
      }
      if mac[..MAC_LEN] != seg[plainLen..] {
        return -1;
      }
      if plainLen > out.Length {
        return -2;
      }
      CopyInto(seg[..plainLen], out, 0);
      chain := mac;
      AdvanceCounter(encCounter);
      n := plainLen;
    }
  }
}
