/** What goes on the wire, written out in the primitives and in octets alone: segments under
    each tag, the sessions they leave, and the whole package. Nothing here is stated through
    the functions it is about. */
module Wire {
  import opened Octets
  import opened DerLength
  import opened Tlv
  import opened Cipher
  import opened Channel
  import opened Package
  import opened Recovery
  import opened Binding
  import opened RoundTrip
  import opened Signing
  import Kdf

  /** The three return values. */
  lemma ReturnCodes<T>(v: T)
    ensures Yes(v).Code() == 0
    ensures var no: Answer<T> := No; no.Code() == -1
    ensures var unreached: Answer<T> := Unreached; unreached.Code() == -2
  {
  }

  // ---- octets ----

  /** Exclusive or, bit by bit. */
  lemma XorOctet(a: byte, b: byte)
    ensures var x := Xor8(a, b);
            && x % 2 == (a + b) % 2 && x / 2 % 2 == (a / 2 + b / 2) % 2
            && x / 4 % 2 == (a / 4 + b / 4) % 2 && x / 8 % 2 == (a / 8 + b / 8) % 2
            && x / 16 % 2 == (a / 16 + b / 16) % 2 && x / 32 % 2 == (a / 32 + b / 32) % 2
            && x / 64 % 2 == (a / 64 + b / 64) % 2 && x / 128 % 2 == (a / 128 + b / 128) % 2
  {
    hide XorBits;
    XorNibble(a, b, 8);
    XorNibble(a / 16, b / 16, 4);
    var x, y := Xor8(a, b), XorBits(a / 16, b / 16, 4);
    assert x / 16 == y;
    Sixteenths(a);
    Sixteenths(b);
    Sixteenths(x);
  }

  lemma XorNibble(a: nat, b: nat, bits: nat)
    requires bits >= 4
    ensures var x := XorBits(a, b, bits);
            && x % 2 == (a + b) % 2 && x / 2 % 2 == (a / 2 + b / 2) % 2
            && x / 4 % 2 == (a / 4 + b / 4) % 2 && x / 8 % 2 == (a / 8 + b / 8) % 2
            && x / 16 == XorBits(a / 16, b / 16, bits - 4)
  {
    hide XorBits;
    XorPair(a, b, bits);
    XorPair(a / 4, b / 4, bits - 2);
    Quarters(a);
    Quarters(b);
    Quarters(XorBits(a, b, bits));
  }

  lemma XorPair(a: nat, b: nat, bits: nat)
    requires bits >= 2
    ensures var x := XorBits(a, b, bits);
            && x % 2 == (a + b) % 2 && x / 2 % 2 == (a / 2 + b / 2) % 2
            && x / 4 == XorBits(a / 4, b / 4, bits - 2)
  {
    hide XorBits;
    XorStep(a, b, a / 2, b / 2, bits);
    XorStep(a / 2, b / 2, a / 4, b / 4, bits - 1);
  }

  lemma XorStep(a: nat, b: nat, a': nat, b': nat, bits: nat)
    requires bits > 0 && a' == a / 2 && b' == b / 2
    ensures XorBits(a, b, bits) / 2 == XorBits(a', b', bits - 1)
    ensures XorBits(a, b, bits) % 2 == (a + b) % 2
  {
    var y := XorBits(a / 2, b / 2, bits - 1);
    assert XorBits(a, b, bits) == 2 * y + (if a % 2 == b % 2 then 0 else 1);
  }

  lemma Quarters(n: nat)
    ensures n / 4 / 2 == n / 8 && n / 4 / 4 == n / 16
  {
  }

  lemma Sixteenths(n: nat)
    ensures n / 16 / 2 == n / 32 && n / 16 / 4 == n / 64 && n / 16 / 8 == n / 128
  {
  }

  lemma XorAt(a: Block, b: Block, i: nat)
    requires i < 16
    ensures Xor(a, b)[i] == Xor8(a[i], b[i])
  {
  }

  /** A tag number of two octets, seven bits each. */
  lemma TwoOctetTagNumber(first: byte, hi: byte, lo: byte, rest: Bytes)
    requires first % 32 == 31 && hi >= 0x80 && lo < 0x80
    ensures FetchTag([first, hi, lo] + rest) == Some((Tag(first / 64, 128 * (hi - 0x80) + lo), 3))
  {
    var p := [first, hi, lo] + rest;
    var q, r := p[1..], p[2..];
    assert q[0] == hi && r[0] == lo && q[1..] == r;
    assert TagTail(r, 0 * 128 + (hi - 0x80)) == Some(((hi - 0x80) * 128 + lo, 1));
    assert TagTail(q, 0) == Some(((hi - 0x80) * 128 + lo, 2));
  }

  /** A length field in the long form says how many octets follow, and they say the length,
      most significant first. */
  lemma LongLength(octets: Bytes, rest: Bytes)
    requires 1 <= |octets| <= 126
    ensures FetchLength([0x80 + |octets|] + octets + rest) == Some((BeNat(octets), 1 + |octets|))
  {
    var p := [0x80 + |octets|] + octets + rest;
    assert p[1..1 + |octets|] == octets;
  }

  /** The indefinite form and the reserved first octet are refused. */
  lemma RefusedLengths(rest: Bytes)
    ensures FetchLength([0x80] + rest).None? && FetchLength([0xFF] + rest).None? && FetchLength([]).None?
  {
  }

  /** A printed TLV of under 128 octets. */
  lemma ShortTlv(tag: Bytes, content: Bytes)
    requires |content| < 0x80
    ensures Encode(tag, content) == tag + [|content|] + content
  {
  }

  // ---- one segment ----

  const COUNTERS: nat := 0x1_0000_0000_0000_0000_0000_0000_0000_0000

  /** Under '88' the plaintext goes as it stands, with eight octets of MAC behind it. */
  lemma MacOnlyOnWire(c: Suite, s: State, tag: byte, plain: Bytes)
    requires |plain| + 8 <= 0xFFFF_FFFF
    ensures Protectable(MacOnly, plain)
    ensures var p, mac := Protect(c, s, MacOnly, tag, plain),
                          c.cmac(s.sMac, s.chain + [tag] + LengthOctets(|plain| + 8) + plain);
            && p.value == plain + mac[..8]
            && p.next == State(s.sEnc, s.sMac, mac, p.next.counter)
            && BeNat(p.next.counter) == (BeNat(s.counter) + 1) % COUNTERS
  {
    hide BeNat, Pow256, Increment;
    NextCounter(s.counter);
  }

  lemma NextCounter(counter: Block)
    ensures |Increment(counter)| == 16 && BeNat(Increment(counter)) == (BeNat(counter) + 1) % COUNTERS
  {
    hide BeNat, Pow256, Increment;
    IncrementAddsOne(counter);
    BeNatBound(counter);
    CounterSpaceIs();
  }

  /** Under '86' and '87' the plaintext is padded with 80 00 .. 00 and chained from the
      encryption of the counter, the MAC is over the ciphertext. */
  lemma EncryptedOnWire(c: Suite, s: State, tag: byte, plain: Bytes)
    requires Protectable(Encrypted, plain)
    ensures var p, padded := Protect(c, s, Encrypted, tag, plain), plain + [0x80] + Zeros(15 - |plain| % 16);
            && |padded| % 16 == 0 && |p.value| == |padded| + 8 <= 0xFFFF_FFFF
            && p.value[..16] == c.enc(s.sEnc, Xor(padded[..16], c.enc(s.sEnc, s.counter)))
            && (forall i :: 1 <= i && 16 * (i + 1) <= |padded| ==>
                  p.value[16 * i..16 * (i + 1)] ==
                  c.enc(s.sEnc, Xor(padded[16 * i..16 * (i + 1)], p.value[16 * (i - 1)..16 * i])))
            && var mac := c.cmac(s.sMac, s.chain + [tag] + LengthOctets(|padded| + 8) + p.value[..|padded|]);
               && p.value[|padded|..] == mac[..8]
               && p.next == State(s.sEnc, s.sMac, mac, p.next.counter)
               && BeNat(p.next.counter) == (BeNat(s.counter) + 1) % COUNTERS
  {
    hide BeNat, Pow256, Increment, CbcEncrypt, LengthOctets;
    var p, padded := Protect(c, s, Encrypted, tag, plain), plain + [0x80] + Zeros(15 - |plain| % 16);
    var body := CbcEncrypt(c, s.sEnc, c.enc(s.sEnc, s.counter), padded);
    assert p.value[..|padded|] == body;
    CbcBlock(c, s.sEnc, c.enc(s.sEnc, s.counter), padded, 0);
    assert p.value[..16] == body[0..16] && padded[0..16] == padded[..16];
    forall i | 1 <= i && 16 * (i + 1) <= |padded|
      ensures p.value[16 * i..16 * (i + 1)] ==
              c.enc(s.sEnc, Xor(padded[16 * i..16 * (i + 1)], p.value[16 * (i - 1)..16 * i]))
    {
      CbcBlock(c, s.sEnc, c.enc(s.sEnc, s.counter), padded, i);
      InFront(p.value, body, 16 * i, 16 * (i + 1));
      InFront(p.value, body, 16 * (i - 1), 16 * i);
    }
    NextCounter(s.counter);
  }

  lemma InFront(value: Bytes, body: Bytes, i: nat, j: nat)
    requires i <= j <= |body| <= |value| && value[..|body|] == body
    ensures value[i..j] == body[i..j]
  {
    SliceOfSlice(value, 0, |body|, i, j);
    assert value[0..|body|] == body;
  }

  /** When the receiver's question is not reached: the segment is past the length form, or
      shorter than what any plaintext makes, or not whole blocks. */
  lemma UnreachedIff(c: Suite, s: State, mode: Mode, tag: byte, seg: Bytes)
    ensures Unprotect(c, s, mode, tag, seg) == Unreached <==>
            || |seg| > 0xFFFF_FFFF
            || (mode == Encrypted && (|seg| < 24 || |seg| % 16 != 8))
            || (mode == MacOnly && |seg| < 8)
  {
    hide CbcDecrypt, Mac, Advance, Unpad, Icv;
  }

  // ---- the session's keys ----

  /** A session comes out exactly when the agreement gives a secret. */
  lemma SessionIff(k: Kdf.Agreement, secret: Bytes, peer: Bytes, info: Bytes)
    ensures Kdf.SessionInit(k, secret, peer, info).Some? <==> k.agree(secret, peer).Some?
  {
  }

  /** Any whole block of key material, its number as four octets, most significant first. */
  lemma KeyBlock(k: Kdf.Agreement, z: Bytes, info: Bytes, len: nat, i: nat)
    requires 32 * (i + 1) <= len && i + 1 <= 0xFFFF_FFFF
    ensures var n := i + 1;
            Kdf.Derive(k, z, info, len)[32 * i..32 * (i + 1)] ==
            k.sha256(z + [n / 0x100_0000, n / 0x1_0000 % 256, n / 0x100 % 256, n % 256] + info)
  {
    hide Kdf.Derive, Kdf.HashInput;
    Kdf.DeriveBlock(k, z, info, len, i);
    HashInputIs(z, info, i + 1);
  }

  lemma HashInputIs(z: Bytes, info: Bytes, n: nat)
    requires n <= 0xFFFF_FFFF
    ensures Kdf.HashInput(z, info, n) ==
            z + [n / 0x100_0000, n / 0x1_0000 % 256, n / 0x100 % 256, n % 256] + info
  {
    assert n % Kdf.WRAP == n;
  }

  // ---- the secure channel request ----

  /** The template: AES, sixteen octets, "euicc-rsp". */
  lemma TemplateOnWire()
    ensures Encode([0xA6], ControlRef(HOST_ID)) ==
            [0xA6, 0x11, 0x80, 0x01, 0x88, 0x81, 0x01, 0x10,
             0x84, 0x09, 0x65, 0x75, 0x69, 0x63, 0x63, 0x2D, 0x72, 0x73, 0x70]
  {
    ShortTlv([0x80], [0x88]);
    ShortTlv([0x81], [0x10]);
    ShortTlv([0x84], HOST_ID);
    ShortTlv([0xA6], ControlRef(HOST_ID));
  }

  /** What is sent. */
  lemma RequestOnWire(t: Block, p: Point, sig: Signature)
    ensures IscContent(t, p, sig) ==
            [0x82, 0x01, 0x01, 0x80, 0x10] + t +
            [0xA6, 0x11, 0x80, 0x01, 0x88, 0x81, 0x01, 0x10,
             0x84, 0x09, 0x65, 0x75, 0x69, 0x63, 0x63, 0x2D, 0x72, 0x73, 0x70] +
            [0x5F, 0x49, 0x41] + p + [0x5F, 0x37, 0x40] + sig
  {
    hide Encode, ControlRef;
    RequestTlvs(t);
    ShortTlvs(p, sig);
  }

  /** What is signed. */
  lemma SignedOnWire(input: Input)
    ensures SignedRequest(input) ==
            [0x82, 0x01, 0x01, 0x80, 0x10] + input.transactionId +
            [0xA6, 0x11, 0x80, 0x01, 0x88, 0x81, 0x01, 0x10,
             0x84, 0x09, 0x65, 0x75, 0x69, 0x63, 0x63, 0x2D, 0x72, 0x73, 0x70] +
            [0x5F, 0x49, 0x41] + input.otpkDp + [0x5F, 0x49, 0x41] + input.euiccOtpk
  {
    hide Encode, ControlRef;
    RequestTlvs(input.transactionId);
    ShortTlvs(input.otpkDp, Zeros(64));
    ShortTlvs(input.euiccOtpk, Zeros(64));
  }

  /** And how often: once, unless an input is missing. */
  lemma UsesOfKey(key: Credential, answer: Option<Signature>, input: Input)
    ensures BuildSigns(key, answer, input) ==
            if input.metadata == [] || input.upp == [] then []
            else
              [Signed(key,
                      [0x82, 0x01, 0x01, 0x80, 0x10] + input.transactionId +
                      [0xA6, 0x11, 0x80, 0x01, 0x88, 0x81, 0x01, 0x10,
                       0x84, 0x09, 0x65, 0x75, 0x69, 0x63, 0x63, 0x2D, 0x72, 0x73, 0x70] +
                      [0x5F, 0x49, 0x41] + input.otpkDp + [0x5F, 0x49, 0x41] + input.euiccOtpk,
                      answer)]
  {
    hide SignedRequest;
    SignedOnWire(input);
  }

  lemma RequestTlvs(t: Block)
    ensures Encode([0x82], [0x01]) + Encode([0x80], t) == [0x82, 0x01, 0x01, 0x80, 0x10] + t
    ensures Encode([0xA6], ControlRef(HOST_ID)) ==
            [0xA6, 0x11, 0x80, 0x01, 0x88, 0x81, 0x01, 0x10,
             0x84, 0x09, 0x65, 0x75, 0x69, 0x63, 0x63, 0x2D, 0x72, 0x73, 0x70]
  {
    hide Encode, ControlRef;
    ShortTlv([0x82], [0x01]);
    ShortTlv([0x80], t);
    TemplateOnWire();
  }

  lemma ShortTlvs(p: Point, sig: Signature)
    ensures Encode(OTPK, p) == [0x5F, 0x49, 0x41] + p
    ensures Encode(SIGNATURE, sig) == [0x5F, 0x37, 0x40] + sig
  {
    hide Encode;
    ShortTlv(OTPK, p);
    ShortTlv(SIGNATURE, sig);
  }

  // ---- the package ----

  /** The commands a package protects, in order: ConfigureISDP, the metadata, the blocks. */
  lemma JobsAre(metadata: Bytes, upp: Bytes)
    ensures var jobs := Jobs(metadata, upp);
            && |jobs| == 2 + |Chunks(upp)|
            && jobs[0] == Job(Encrypted, 0x87, [0xBF, 0x24, 0x00]) && jobs[1] == Job(MacOnly, 0x88, metadata)
            && forall i :: 0 <= i < |Chunks(upp)| ==> jobs[2 + i] == Job(Encrypted, 0x86, Chunks(upp)[i])
  {
    hide Chunks;
  }

  lemma {:induction false} WrappedAre(values: seq<Bytes>) returns (tlvs: seq<Bytes>)
    requires AllFit(values)
    ensures |tlvs| == |values| && Wrapped(0x86, values) == Concat(tlvs)
    ensures forall i :: 0 <= i < |tlvs| ==> tlvs[i] == [0x86] + LengthOctets(|values[i]|) + values[i]
  {
    tlvs := [];
    if values != [] {
      var rest := WrappedAre(values[1..]);
      tlvs := [Encode([0x86], values[0])] + rest;
      assert tlvs[1..] == rest;
    }
  }

  /** A built package, octet for octet: the outer [54] TLV, the request, the '87' of
      ConfigureISDP, the '88' that starts with the caller's metadata, and the '86' TLVs, each
      value protected in the session the one before it left. */
  lemma PackageOnWire(c: Suite, answer: Option<Signature>, s: State, input: Input)
    returns (v87: Bytes, v88: Bytes, tlvs: seq<Bytes>)
    requires Build(c, answer, s, input).package.Some?
    ensures answer.Some? && |input.metadata| <= 1007
    ensures AllProtectable(Jobs(input.metadata, input.upp))
    ensures var jobs, chunks := Jobs(input.metadata, input.upp), Chunks(input.upp);
            && v87 == Protect(c, s, Encrypted, 0x87, [0xBF, 0x24, 0x00]).value && |v87| == 24
            && v88 == Protect(c, StateAt(c, s, jobs, 1), MacOnly, 0x88, input.metadata).value
            && |v88| == |input.metadata| + 8 && v88[..|input.metadata|] == input.metadata
            && |jobs| == 2 + |chunks| && |tlvs| == |chunks|
            && forall i :: 0 <= i < |tlvs| ==>
                 && Protectable(Encrypted, chunks[i])
                 && var v := Protect(c, StateAt(c, s, jobs, 2 + i), Encrypted, 0x86, chunks[i]).value;
                    |v| <= 0xFFFF_FFFF && tlvs[i] == [0x86] + LengthOctets(|v|) + v
    ensures var g86, g88 := Concat(tlvs), [0x88] + LengthOctets(|v88|) + v88;
            && |g86| <= 0xFFFF_FFFF
            && var content := [0xBF, 0x23, 0x81, 0xAF] +
                              IscContent(input.transactionId, input.otpkDp, answer.value) +
                              ([0xA0, 0x1A, 0x87, 0x18] + v87) + ([0xA1] + LengthOctets(|g88|) + g88) +
                              ([0xA3] + LengthOctets(|g86|) + g86);
               && |content| <= 0xFFFF_FFFF
               && Build(c, answer, s, input).package == Some([0xBF, 0x36] + LengthOctets(|content|) + content)
  {
    hide Build, ProtectAll, Protect, Chunks, IscContent, Wrapped, LengthOctets, StateAt, Enveloped, AllFit;
    BuildSucceedsIff(c, answer, s, input);
    var jobs := Jobs(input.metadata, input.upp);
    var values := BuiltValues(c, answer, s, input);
    JobsAre(input.metadata, input.upp);
    var vs := values[2..];
    tlvs := WrappedAre(vs);
    v87, v88 := values[0], values[1];
    AtStart(c, s, jobs);
    MacOnlyOnWire(c, StateAt(c, s, jobs, 1), 0x88, input.metadata);
    forall i | 0 <= i < |tlvs|
      ensures Protectable(Encrypted, Chunks(input.upp)[i])
      ensures var v := Protect(c, StateAt(c, s, jobs, 2 + i), Encrypted, 0x86, Chunks(input.upp)[i]).value;
              |v| <= 0xFFFF_FFFF && tlvs[i] == [0x86] + LengthOctets(|v|) + v
    {
      assert vs[i] == values[2 + i];
    }
    EnvelopeOnWire(IscContent(input.transactionId, input.otpkDp, answer.value), values);
  }

  /** Each command is protected in the session the one before it left. */
  lemma StatesInTurn(c: Suite, s: State, jobs: seq<Job>, i: nat)
    requires AllProtectable(jobs) && i < |jobs|
    ensures StateAt(c, s, jobs, 0) == s
    ensures Protectable(jobs[i].mode, jobs[i].plain)
    ensures StateAt(c, s, jobs, i + 1) ==
            Protect(c, StateAt(c, s, jobs, i), jobs[i].mode, jobs[i].tag, jobs[i].plain).next
  {
    hide Protect;
    AtStart(c, s, jobs);
    assert jobs[..i + 1] == jobs[..i] + [jobs[i]];
    ProtectOneMore(c, s, jobs[..i], jobs[i]);
  }

  lemma {:induction false} ProtectOneMore(c: Suite, s: State, jobs: seq<Job>, last: Job)
    requires AllProtectable(jobs + [last])
    ensures AllProtectable(jobs) && Protectable(last.mode, last.plain)
    ensures ProtectAll(c, s, jobs + [last]).next ==
            Protect(c, ProtectAll(c, s, jobs).next, last.mode, last.tag, last.plain).next
    decreases |jobs|
  {
    hide Protect;
    var all := jobs + [last];
    assert all[|jobs|] == last && forall i :: 0 <= i < |jobs| ==> all[i] == jobs[i];
    if jobs == [] {
      assert all[1..] == [];
    } else {
      assert all[1..] == jobs[1..] + [last];
      ProtectOneMore(c, Protect(c, s, jobs[0].mode, jobs[0].tag, jobs[0].plain).next, jobs[1..], last);
    }
  }

  lemma AtStart(c: Suite, s: State, jobs: seq<Job>)
    requires AllProtectable(jobs)
    ensures StateAt(c, s, jobs, 0) == s
  {
    assert jobs[..0] == [];
  }

  lemma BuiltValues(c: Suite, answer: Option<Signature>, s: State, input: Input) returns (values: seq<Bytes>)
    requires Build(c, answer, s, input).package.Some?
    ensures answer.Some? && AllProtectable(Jobs(input.metadata, input.upp))
    ensures var jobs := Jobs(input.metadata, input.upp);
            && |values| == |jobs| >= 2 && AllFit(values) && AllFit(values[2..])
            && |values[0]| == 24 && |values[1]| <= 2000
            && forall i :: 0 <= i < |jobs| ==>
                 && Protectable(jobs[i].mode, jobs[i].plain)
                 && values[i] == Protect(c, StateAt(c, s, jobs, i), jobs[i].mode, jobs[i].tag, jobs[i].plain).value
                 && |values[i]| <= 0xFFFF_FFFF
    ensures Build(c, answer, s, input).package ==
            Enveloped(Encode(ISC, IscContent(input.transactionId, input.otpkDp, answer.value)), values)
  {
    hide ProtectAll, Protect, Chunks, IscContent, Wrapped, LengthOctets, StateAt, Enveloped;
    var jobs := Jobs(input.metadata, input.upp);
    JobsAreProtectable(input.metadata, input.upp);
    JobsAre(input.metadata, input.upp);
    ProtectAllSizes(c, s, jobs);
    values := ProtectAll(c, s, jobs).values;
    forall i | 0 <= i < |jobs|
      ensures values[i] == Protect(c, StateAt(c, s, jobs, i), jobs[i].mode, jobs[i].tag, jobs[i].plain).value
    {
      ValueAt(c, s, jobs, i);
    }
  }

  lemma EnvelopeOnWire(isc: Bytes, values: seq<Bytes>)
    requires |isc| == 175 && |values| >= 2 && AllFit(values) && AllFit(values[2..])
    requires |values[0]| == 24 && |values[1]| <= 2000
    requires Enveloped(Encode(ISC, isc), values).Some?
    ensures var v87, v88, g86 := values[0], values[1], Wrapped(0x86, values[2..]);
            var g88 := [0x88] + LengthOctets(|v88|) + v88;
            && |g86| <= 0xFFFF_FFFF
            && var content := [0xBF, 0x23, 0x81, 0xAF] + isc +
                              ([0xA0, 0x1A, 0x87, 0x18] + v87) + ([0xA1] + LengthOctets(|g88|) + g88) +
                              ([0xA3] + LengthOctets(|g86|) + g86);
               && |content| <= 0xFFFF_FFFF
               && Enveloped(Encode(ISC, isc), values) == Some([0xBF, 0x36] + LengthOctets(|content|) + content)
  {
    hide Wrapped;
    var v87, v88, g86 := values[0], values[1], Wrapped(0x86, values[2..]);
    var front := Encode(ISC, isc) + Encode(FIRST_87, Encode([TAG_87], v87)) +
                 Encode(SEQUENCE_88, Encode([TAG_88], v88));
    assert front + [] == front;
    assert Encode(ISC, isc) == [0xBF, 0x23, 0x81, 0xAF] + isc;
    ShortTlv([0x87], v87);
    ShortTlv([0xA0], Encode([0x87], v87));
    assert Encode(FIRST_87, Encode([TAG_87], v87)) == [0xA0, 0x1A, 0x87, 0x18] + v87;
  }

  // ---- the session a build leaves ----

  /** How far build moves the session, whatever its answer: not at all without an input or a
      signature, by the '87' alone for metadata past one segment, else by every element, even
      when the package then proves too long. */
  lemma SessionAfterBuild(c: Suite, answer: Option<Signature>, s: State, input: Input)
    ensures var next := Build(c, answer, s, input).next;
            if input.metadata == [] || input.upp == [] || answer.None? then next == s
            else if |input.metadata| > 1007 then next == Protect(c, s, Encrypted, 0x87, [0xBF, 0x24, 0x00]).next
            else
              && AllProtectable(Jobs(input.metadata, input.upp))
              && next == StateAt(c, s, Jobs(input.metadata, input.upp), |Jobs(input.metadata, input.upp)|)
              && BeNat(next.counter) == (BeNat(s.counter) + 2 + (|input.upp| + 1006) / 1007) % COUNTERS
  {
    hide BeNat, Pow256, ProtectAll, Chunks, Enveloped, Protect;
    if input.metadata != [] && input.upp != [] && answer.Some? && |input.metadata| <= 1007 {
      var jobs := Jobs(input.metadata, input.upp);
      JobsAreProtectable(input.metadata, input.upp);
      ChunksFillSegments(input.upp);
      CounterAt(c, s, jobs, |jobs|);
      assert jobs[..|jobs|] == jobs;
    }
  }
}
