/** Building a package (rsp_bpp_build) on values: what is signed, how the profile is cut,
    what the package is, and how long. */
module Binding {
  import opened Octets
  import opened DerLength
  import opened Tlv
  import opened Cipher
  import opened Channel
  import opened Package
  import opened Recovery
  import opened Signing

  /** An uncompressed P-256 point. */
  type Point = s: Bytes | |s| == 65 witness seq(65, i => 0)

  /** "euicc-rsp", the SM-DP+'s own Host ID. */
  const HOST_ID: Bytes := [0x65, 0x75, 0x69, 0x63, 0x63, 0x2D, 0x72, 0x73, 0x70]

  /** APPLICATION 73 and APPLICATION 55. */
  const OTPK: Bytes := [0x5F, 0x49]
  const SIGNATURE: Bytes := [0x5F, 0x37]

  /** rsp_bpp_input_t, without the signing credential. */
  datatype Input = Input(
    upp: Bytes, metadata: Bytes, otpkDp: Point, transactionId: Block, euiccOtpk: Point)

  // ---- what smdpSign covers ----

  /** ControlRefTemplate's three members: AES key type, key length, host. */
  function ControlRef(host: Bytes): (r: Bytes)
    requires |host| <= 16
    ensures |r| == 8 + |host|
  {
    Encode([0x80], [0x88]) + Encode([0x81], [0x10]) + Encode([0x84], host)
  }

  /** build_isc_tbs (section 5.5.1 of GSMA SGP.22 v2.6). */
  function IscTbs(transactionId: Block, host: Bytes, smdpOtpk: Point, euiccOtpk: Point): Bytes
    requires |host| <= 16
  {
    Encode([0x82], [0x01]) + Encode([0x80], transactionId) + Encode([0xA6], ControlRef(host)) +
    Encode(OTPK, smdpOtpk) + Encode(OTPK, euiccOtpk)
  }

  /** InitialiseSecureChannelRequest's members; euiccOtpk is signed but not sent. */
  function IscContent(transactionId: Block, smdpOtpk: Point, smdpSign: Signature): (r: Bytes)
    ensures |r| == 175
  {
    Encode([0x82], [0x01]) + Encode([0x80], transactionId) + Encode([0xA6], ControlRef(HOST_ID)) +
    Encode(OTPK, smdpOtpk) + Encode(SIGNATURE, smdpSign)
  }

  lemma ControlRefDetermines(host: Bytes, host': Bytes)
    requires |host| <= 16 && |host'| <= 16
    requires ControlRef(host) == ControlRef(host')
    ensures host == host'
  {
    assert ControlRef(host)[7] == |host| && ControlRef(host')[7] == |host'|;
    assert ControlRef(host)[8..] == host && ControlRef(host')[8..] == host';
  }

  /** What smdpSign covers has one reading: although both one-time keys carry tag 5F49, the
      octets determine the transaction, the host and which key is whose. */
  lemma SignedRequestDetermines(
    t: Block, h: Bytes, p: Point, q: Point, t': Block, h': Bytes, p': Point, q': Point)
    requires |h| <= 16 && |h'| <= 16
    requires IscTbs(t, h, p, q) == IscTbs(t', h', p', q')
    ensures t == t' && h == h' && p == p' && q == q'
  {
    hide Encode;
    var w, w' := Encode(OTPK, q), Encode(OTPK, q');
    var z, z' := Encode(OTPK, p) + w, Encode(OTPK, p') + w';
    var y, y' := Encode([0xA6], ControlRef(h)) + z, Encode([0xA6], ControlRef(h')) + z';
    var x, x' := Encode([0x80], t) + y, Encode([0x80], t') + y';
    assert IscTbs(t, h, p, q) == Encode([0x82], [0x01]) + x;
    assert IscTbs(t', h', p', q') == Encode([0x82], [0x01]) + x';
    EncodeSelfDelimiting([0x82], [0x01], x, [0x01], x');
    EncodeSelfDelimiting([0x80], t, y, t', y');
    EncodeSelfDelimiting([0xA6], ControlRef(h), z, ControlRef(h'), z');
    ControlRefDetermines(h, h');
    EncodeSelfDelimiting(OTPK, p, w, p', w');
    assert w + [] == w && w' + [] == w';
    EncodeSelfDelimiting(OTPK, q, [], q', []);
  }

  /** What is signed is what is sent: the request as sent and the octets signed share one
      front, the operation, transaction, template and our one-time key; the request goes on
      with the signature, the signed octets with the card's key. */
  lemma SignedIsSent(t: Block, p: Point, q: Point, sig: Signature) returns (front: Bytes)
    ensures IscContent(t, p, sig) == front + Encode(SIGNATURE, sig)
    ensures IscTbs(t, HOST_ID, p, q) == front + Encode(OTPK, q)
  {
    hide Encode;
    front := Encode([0x82], [0x01]) + Encode([0x80], t) + Encode([0xA6], ControlRef(HOST_ID)) + Encode(OTPK, p);
  }

  // ---- segmentation ----

  /** The profile in blocks of 1007 octets, the last one shorter; at least one block. */
  function Chunks(upp: Bytes): (r: seq<Bytes>)
    ensures r != [] && Concat(r) == upp
    ensures forall i :: 0 <= i < |r| ==> |r[i]| <= MAX_SEGMENT_PLAINTEXT
    decreases |upp|
  {
    if |upp| <= MAX_SEGMENT_PLAINTEXT then
      assert Concat([upp]) == upp + Concat([]);
      [upp]
    else [upp[..MAX_SEGMENT_PLAINTEXT]] + Chunks(upp[MAX_SEGMENT_PLAINTEXT..])
  }

  function TlvSize(n: nat): nat
    requires n <= MAX_LENGTH
  {
    1 + |LengthOctets(n)| + n
  }

  /** The whole '86' TLV for k octets of plaintext. */
  function SegmentSize(k: nat): nat
    requires BodySize(Encrypted, k) + MAC_LEN <= MAX_LENGTH
  {
    TlvSize(BodySize(Encrypted, k) + MAC_LEN)
  }

  /** 1007 is exactly what the 1020-octet segment limit leaves. */
  lemma SegmentFitsIff(k: nat)
    requires BodySize(Encrypted, k) + MAC_LEN <= MAX_LENGTH
    ensures SegmentSize(k) <= 1020 <==> k <= MAX_SEGMENT_PLAINTEXT
    ensures SegmentSize(MAX_SEGMENT_PLAINTEXT) == 1020
  {
    var body := BodySize(Encrypted, k);
    assert body % 16 == 0;
    if k <= MAX_SEGMENT_PLAINTEXT {
      assert body <= 1008;
    } else {
      assert body >= 1024;
    }
  }

  /** Every block but the last fills its segment to 1020 octets; the last holds 1 to 1007
      octets (none only for an empty profile); and the number of blocks is n/1007 rounded
      up. */
  lemma {:induction false} ChunksFillSegments(upp: Bytes)
    ensures var r := Chunks(upp);
            && (forall i :: 0 <= i < |r| - 1 ==> |r[i]| == MAX_SEGMENT_PLAINTEXT)
            && (upp != [] ==> r[|r| - 1] != [] && |r| == (|upp| + 1006) / 1007)
    decreases |upp|
  {
    if |upp| > MAX_SEGMENT_PLAINTEXT {
      ChunksFillSegments(upp[MAX_SEGMENT_PLAINTEXT..]);
      var r, t := Chunks(upp), Chunks(upp[MAX_SEGMENT_PLAINTEXT..]);
      assert r[1..] == t;
      assert forall i :: 1 <= i < |r| ==> r[i] == t[i - 1];
    }
  }

  /** No way of cutting the profile into segments within the limit uses fewer. */
  lemma ChunksAreFewest(upp: Bytes, parts: seq<Bytes>)
    requires upp != [] && Concat(parts) == upp
    requires forall p :: p in parts ==> BodySize(Encrypted, |p|) + MAC_LEN <= MAX_LENGTH && SegmentSize(|p|) <= 1020
    ensures |Chunks(upp)| <= |parts|
  {
    forall p | p in parts
      ensures |p| <= MAX_SEGMENT_PLAINTEXT
    {
      SegmentFitsIff(|p|);
    }
    ConcatBound(parts);
    ChunksFillSegments(upp);
  }

  lemma {:induction false} ConcatBound(parts: seq<Bytes>)
    requires forall p :: p in parts ==> |p| <= MAX_SEGMENT_PLAINTEXT
    ensures |Concat(parts)| <= MAX_SEGMENT_PLAINTEXT * |parts|
  {
    if parts != [] {
      assert parts[0] in parts;
      ConcatBound(parts[1..]);
    }
  }

  // ---- the package ----

  function ChunkJobs(chunks: seq<Bytes>): (r: seq<Job>)
    ensures |r| == |chunks|
    ensures forall i :: 0 <= i < |r| ==> r[i] == Job(Encrypted, TAG_86, chunks[i])
  {
    if chunks == [] then [] else [Job(Encrypted, TAG_86, chunks[0])] + ChunkJobs(chunks[1..])
  }

  function HeadJobs(metadata: Bytes): seq<Job> {
    [Job(Encrypted, TAG_87, CONFIGURE_ISDP), Job(MacOnly, TAG_88, metadata)]
  }

  /** Everything protected in one package, in wire order: '87', '88', then the '86's. */
  function Jobs(metadata: Bytes, upp: Bytes): seq<Job> {
    HeadJobs(metadata) + ChunkJobs(Chunks(upp))
  }

  lemma JobsAreProtectable(metadata: Bytes, upp: Bytes)
    requires |metadata| <= MAX_SEGMENT_PLAINTEXT
    ensures AllProtectable(Jobs(metadata, upp))
  {
    hide Chunks;
    var chunks := Chunks(upp);
    var jobs := Jobs(metadata, upp);
    forall i | 0 <= i < |jobs|
      ensures Protectable(jobs[i].mode, jobs[i].plain)
    {
      if i >= 2 {
        assert jobs[i] == Job(Encrypted, TAG_86, chunks[i - 2]);
      }
    }
  }

  /** Segment values are small enough for any length field, whatever the session. */
  lemma {:induction false} ProtectAllSizes(c: Suite, s: State, jobs: seq<Job>)
    requires AllProtectable(jobs)
    ensures var vs := ProtectAll(c, s, jobs).values;
            AllFit(vs) && forall i :: 0 <= i < |vs| ==> |vs[i]| == BodySize(jobs[i].mode, |jobs[i].plain|) + MAC_LEN
    decreases |jobs|
  {
    hide Body, Mac, Advance;
    if jobs != [] {
      ProtectAllSizes(c, Protect(c, s, jobs[0].mode, jobs[0].tag, jobs[0].plain).next, jobs[1..]);
    }
  }

  /** The outer SEQUENCE's content, given the request TLV and the protected values. */
  function Content(isc: Bytes, values: seq<Bytes>): Bytes
    requires |values| >= 2 && AllFit(values) && AllFit(values[2..])
    requires |values[0]| <= 2000 && |values[1]| <= 2000
    requires |Wrapped(TAG_86, values[2..])| <= MAX_LENGTH
  {
    Layout(isc, Encode([TAG_87], values[0]), Encode([TAG_88], values[1]), [], Wrapped(TAG_86, values[2..]))
  }

  datatype Built = Built(package: Option<Bytes>, next: State)

  /** The octets the build has signed. */
  function SignedRequest(input: Input): Bytes {
    IscTbs(input.transactionId, HOST_ID, input.otpkDp, input.euiccOtpk)
  }

  /** What the build hands to the signing key: the request's octets, once, unless an input is
      missing. */
  function BuildSigns(key: Credential, answer: Option<Signature>, input: Input): seq<Signed> {
    if input.metadata == [] || input.upp == [] then [] else [Signed(key, SignedRequest(input), answer)]
  }

  /** rsp_bpp_build, given the key's answer to the request. A refusal leaves the session
      advanced by whatever was protected before it: nothing for a missing input or a failed
      signature, the '87' for metadata that does not fit one segment, everything for a package
      past the length form. */
  ghost function Build(c: Suite, answer: Option<Signature>, s: State, input: Input): Built {
    if input.metadata == [] || input.upp == [] then Built(None, s)
    else
      match answer
      case None => Built(None, s)
      case Some(sig) =>
        if |input.metadata| > MAX_SEGMENT_PLAINTEXT then
          Built(None, Protect(c, s, Encrypted, TAG_87, CONFIGURE_ISDP).next)
        else
          JobsAreProtectable(input.metadata, input.upp);
          var r := ProtectAll(c, s, Jobs(input.metadata, input.upp));
          ProtectAllSizes(c, s, Jobs(input.metadata, input.upp));
          Built(Enveloped(Encode(ISC, IscContent(input.transactionId, input.otpkDp, sig)), r.values), r.next)
  }

  /** The package, unless some length is past the four-octet form. */
  function Enveloped(isc: Bytes, values: seq<Bytes>): Option<Bytes>
    requires |values| >= 2 && AllFit(values) && |values[0]| <= 2000 && |values[1]| <= 2000
  {
    assert AllFit(values[2..]);
    if |Wrapped(TAG_86, values[2..])| > MAX_LENGTH then None
    else if |Content(isc, values)| > MAX_LENGTH then None
    else Some(Encode(BPP, Content(isc, values)))
  }
}
