/** The ES9+ session of src/rsp_es9.c: what each call answers, signs and leaves behind, and
    the session object that does it in place. */
module Es9 {
  import opened Octets
  import opened Binding
  import opened Signing
  import Channel
  import Cipher
  import Kdf
  import Bpp
  import GB = GrowBuf
  import Scp03t
  import Tlv

  /** Verifying and certificates, as answers of the crypto library. */
  datatype Pki = Pki(
    verify: (Bytes, Bytes, Bytes) -> Answer<()>,   // certificate, message, signature
    parses: Bytes -> bool,
    chainsToCi: Bytes -> bool,
    chains: (Bytes, Bytes) -> bool,                // certificate, issuer
    subjectSerial: Bytes -> Option<Bytes>,
    ciKeyId: Option<Bytes>,
    certificate: Credential -> Bytes)

  /** The lengths of a StoreMetadataRequest's three checked fields. */
  datatype MetadataView = MetadataView(iccid: nat, profileName: nat, serviceProvider: nat)

  /** AuthenticateServerResponse, certificates and euiccSigned1 as their own encodings. */
  datatype ServerResponse =
    | ResponseOk(transactionId: Bytes, serverChallenge: Bytes, eumCert: Bytes, euiccCert: Bytes,
                 euiccSigned1: Bytes, euiccSignature1: Bytes)
    | ResponseError

  /** PrepareDownloadResponse, euiccSigned2 as its own encoding. */
  datatype PrepareResponse =
    | DownloadOk(transactionId: Bytes, euiccOtpk: Bytes, euiccSigned2: Bytes, euiccSignature2: Bytes)
    | DownloadError

  /** The generated codec: decoders to the fields used here, and encoders. */
  datatype Codec = Codec(
    info1Decodes: Bytes -> bool,
    metadata: Bytes -> Option<MetadataView>,
    serverResponse: Bytes -> Option<ServerResponse>,
    prepareResponse: Bytes -> Option<PrepareResponse>,
    serverSigned1: (Block, Block, Bytes, Block) -> Bytes,
    smdpSigned2: Block -> Bytes,
    initiateOk: (Block, Bytes, Signature, Bytes, Bytes) -> Option<Bytes>,
    clientOk: (Block, Bytes, Bytes, Signature, Bytes) -> Option<Bytes>)

  datatype Env = Env(suite: Cipher.Suite, agreement: Kdf.Agreement, pki: Pki, codec: Codec)

  // ---- section 5.6.1's address check ----

  function Fold(c: byte): byte {
    if 0x41 <= c <= 0x5A then c as int - 0x41 + 0x61 else c
  }

  /** Equal but for the case of ASCII letters. */
  predicate SameAddress(a: Bytes, b: Bytes) {
    |a| == |b| && forall i :: 0 <= i < |a| ==> Fold(a[i]) == Fold(b[i])
  }

  /** ascii_ieq, on strings without their terminators. */
  method AsciiEqual(a: Bytes, b: Bytes) returns (equal: bool)
    ensures equal == SameAddress(a, b)
  {
    var i := 0;
    while i < |a| && i < |b|
      invariant 0 <= i <= |a| && i <= |b|
      invariant forall k :: 0 <= k < i ==> Fold(a[k]) == Fold(b[k])
    {
      if Fold(a[i]) != Fold(b[i]) {
        return false;
      }
      i := i + 1;
    }
    return i == |a| && i == |b|;
  }

  // ---- Annex G's SharedInfo ----

  predicate IsDigit(c: byte) {
    0x30 <= c <= 0x39
  }

  /** Two decimal digits to an octet, the first in the high half. */
  function PackDigits(d: Bytes): (r: Bytes)
    requires |d| % 2 == 0 && forall i :: 0 <= i < |d| ==> IsDigit(d[i])
    ensures |r| == |d| / 2
    ensures forall i :: 0 <= i < |r| ==> r[i] == 16 * (d[2 * i] as int - 0x30) + (d[2 * i + 1] as int - 0x30)
  {
    if d == [] then []
    else
      var front := |d| - 2;
      assert IsDigit(d[front]) && IsDigit(d[front + 1]);
      var octet: byte := 16 * (d[front] as int - 0x30) + (d[front + 1] as int - 0x30);
      PackDigits(d[..front]) + [octet]
  }

  /** The EID as sixteen octets: exactly 32 decimal digits, or nothing. */
  function PackEid(eid: Bytes): (r: Option<Bytes>)
    ensures r.Some? ==> |r.value| == 16
  {
    if |eid| == 32 && forall i :: 0 <= i < 32 ==> IsDigit(eid[i]) then Some(PackDigits(eid)) else None
  }

  lemma PackEidInjective(a: Bytes, b: Bytes)
    requires PackEid(a).Some? && PackEid(a) == PackEid(b)
    ensures a == b
  {
    var p := PackEid(a).value;
    forall i | 0 <= i < 32
      ensures a[i] == b[i]
    {
      var k := i / 2;
      assert p[k] == 16 * (a[2 * k] as int - 0x30) + (a[2 * k + 1] as int - 0x30);
      assert p[k] == 16 * (b[2 * k] as int - 0x30) + (b[2 * k + 1] as int - 0x30);
      assert a[2 * k] == b[2 * k] && a[2 * k + 1] == b[2 * k + 1];
    }
  }

  /** eid_digits_to_octets. */
  method EidDigitsToOctets(eid: Bytes, out: array<byte>) returns (ret: int)
    requires out.Length == 16
    modifies out
    ensures ret == if PackEid(eid).Some? then 0 else -1
    ensures ret == 0 ==> out[..] == PackEid(eid).value
  {
    if |eid| != out.Length * 2 {
      return -1;
    }
    var i := 0;
    while i < out.Length
      invariant 0 <= i <= out.Length
      invariant forall k :: 0 <= k < 2 * i ==> IsDigit(eid[k])
      invariant forall k :: 0 <= k < i ==> out[k] == 16 * (eid[2 * k] as int - 0x30) + (eid[2 * k + 1] as int - 0x30)
    {
      var hi, lo := eid[2 * i], eid[2 * i + 1];
      if hi < 0x30 || hi > 0x39 || lo < 0x30 || lo > 0x39 {
        assert !IsDigit(eid[2 * i]) || !IsDigit(eid[2 * i + 1]);
        return -1;
      }
      out[i] := 16 * (hi as int - 0x30) + (lo as int - 0x30);
      i := i + 1;
    }
    return 0;
  }

  /** Key type, key length, and two length-value fields. */
  function SharedInfo(host: Bytes, eid: Bytes): (r: Bytes)
    requires |host| <= 0xFF && |eid| <= 0xFF
  {
    [0x88, 0x10, |host|] + host + [|eid|] + eid
  }

  /** What both ends derive their keys over names one host and one card: equal shared
      information means equal hosts and equal 32-digit EIDs. */
  lemma SharedInfoDetermines(h: Bytes, e: Bytes, h': Bytes, e': Bytes)
    requires |h| <= 0xFF && |h'| <= 0xFF && PackEid(e).Some? && PackEid(e').Some?
    requires SharedInfo(h, PackEid(e).value) == SharedInfo(h', PackEid(e').value)
    ensures h == h' && e == e'
  {
    var s, s' := SharedInfo(h, PackEid(e).value), SharedInfo(h', PackEid(e').value);
    assert s[2] == |h| && s'[2] == |h'|;
    assert s[3..3 + |h|] == h && s'[3..3 + |h'|] == h';
    assert s[4 + |h|..] == PackEid(e).value && s'[4 + |h'|..] == PackEid(e').value;
    PackEidInjective(e, e');
  }

  /** Keys are one card's: two sessions that share their chaining value and S-ENC came from one
      secret, one host and one EID, or two SHA-256 inputs with one digest are in hand. */
  lemma KeysDetermineTheCard(
    k: Kdf.Agreement, a: Bytes, p: Bytes, h: Bytes, e: Bytes, a': Bytes, p': Bytes, h': Bytes, e': Bytes)
    returns (x: Bytes, y: Bytes)
    requires |h| <= 0xFF && |h'| <= 0xFF && PackEid(e).Some? && PackEid(e').Some?
    requires k.agree(a, p).Some? && |k.agree(a, p).value| == 32
    requires k.agree(a', p').Some? && |k.agree(a', p').value| == 32
    requires var s := Kdf.SessionInit(k, a, p, SharedInfo(h, PackEid(e).value)).value;
             var s' := Kdf.SessionInit(k, a', p', SharedInfo(h', PackEid(e').value)).value;
             s.chain == s'.chain && s.sEnc == s'.sEnc
    ensures (k.agree(a, p) == k.agree(a', p') && h == h' && e == e') || (x != y && k.sha256(x) == k.sha256(y))
  {
    hide Kdf.SessionInit, PackEid, SharedInfo;
    var z, z', info, info' :=
      k.agree(a, p).value, k.agree(a', p').value, SharedInfo(h, PackEid(e).value), SharedInfo(h', PackEid(e').value);
    Kdf.SessionKeysAre(k, a, p, info, z);
    Kdf.SessionKeysAre(k, a', p', info', z');
    x, y := z + [0, 0, 0, 1] + info, z' + [0, 0, 0, 1] + info';
    var d, d' := k.sha256(x), k.sha256(y);
    assert d == d[..16] + d[16..] && d' == d'[..16] + d'[16..];
    if x == y {
      assert z == x[..32] == y[..32] == z' && info == x[36..] == y[36..] == info';
      SharedInfoDetermines(h, e, h', e');
    }
  }

  /** build_shared_info. */
  method BuildSharedInfo(host: Bytes, eid: Bytes, out: array<byte>) returns (ret: int, n: nat)
    modifies out
    ensures ret == if |host| <= 0xFF && |eid| <= 0xFF && 4 + |host| + |eid| <= out.Length then 0 else -1
    ensures ret == 0 ==> n <= out.Length && out[..n] == SharedInfo(host, eid)
  {
    n := 2 + 1 + |host| + 1 + |eid|;
    if |host| > 0xFF || |eid| > 0xFF || n > out.Length {
      return -1, n;
    }
    out[0], out[1], out[2] := 0x88, 0x10, |host|;
    assert out[..3] == [0x88, 0x10, |host|];
    CopyInto(host, out, 3);
    assert out[..3 + |host|] == out[..3] + out[3..3 + |host|] == [0x88, 0x10, |host|] + host;
    ghost var front := out[..3 + |host|];
    out[3 + |host|] := |eid|;
    assert out[..3 + |host|] == front;
    assert out[..4 + |host|] == front + [|eid|];
    CopyInto(eid, out, 3 + |host| + 1);
    assert out[..n] == out[..4 + |host|] + out[4 + |host|..n];
    ret := 0;
  }

  // ---- signature chaining ----

  /** A signed object followed by the other side's last signature as its own TLV. */
  function Chained(data: Bytes, signature: Bytes): Bytes {
    data + [0x5F, 0x37, 64] + signature
  }

  /** A chained message has one reading, and its second part is a signature's own TLV. */
  lemma ChainedDetermines(a: Bytes, s: Bytes, b: Bytes, t: Bytes)
    requires |s| == 64 && |t| == 64 && Chained(a, s) == Chained(b, t)
    ensures a == b && s == t
    ensures Chained(a, s) == a + Tlv.Encode(SIGNATURE, s)
  {
    var x, y := Chained(a, s), Chained(b, t);
    assert a == x[..|x| - 67] && b == y[..|y| - 67];
    assert s == x[|x| - 64..] && t == y[|y| - 64..];
  }

  // ---- the session ----

  datatype DpState = DpState(
    transactionId: Block, euiccChallenge: Block, serverChallenge: Block,
    authenticated: bool, cert: Bytes, eid: Bytes, metadata: Bytes, smdpSignature2: Signature,
    haveBppSession: bool, bppSession: Channel.State)

  const NO_SIGNATURE: Signature := Zeros(64)
  const NO_SESSION: Channel.State := Channel.State(Zeros(16), Zeros(16), Zeros(16), Zeros(16))

  /** The session rsp_dp_initiate_authentication means to hand out. */
  function Opened(transactionId: Block, euiccChallenge: Block, serverChallenge: Block): DpState {
    DpState(transactionId, euiccChallenge, serverChallenge, false, [], [], [], NO_SIGNATURE, false, NO_SESSION)
  }

  /** A call's answer, the session after it, and every use it made of a signing key. */
  datatype Outcome = Outcome(answer: Answer<Bytes>, next: DpState, signed: seq<Signed>)

  // ---- rsp_dp_initiate_authentication ----

  datatype Initiated = Initiated(answer: Answer<Bytes>, session: Option<DpState>, signed: seq<Signed>)

  function Initiate(env: Env, challenge: Bytes, info1: Bytes, transactionId: Block, serverChallenge: Block,
                    own: Bytes, requested: Option<Bytes>, answer: Option<Signature>): Initiated
  {
    if |challenge| != 16 || info1 == [] then Initiated(Unreached, None, [])
    else if requested.Some? && !SameAddress(own, requested.value) then Initiated(No, None, [])
    else if !env.codec.info1Decodes(info1) then Initiated(Unreached, None, [])
    else
      var signed1 := env.codec.serverSigned1(transactionId, challenge, own, serverChallenge);
      var signed := [Signed(DPauth, signed1, answer)];
      match answer
      case None => Initiated(Unreached, None, signed)
      case Some(sig) =>
        match env.pki.ciKeyId
        case None => Initiated(Unreached, None, signed)
        case Some(keyId) =>
          match env.codec.initiateOk(transactionId, signed1, sig, keyId, env.pki.certificate(DPauth))
          case None => Initiated(Unreached, None, signed)
          case Some(resp) => Initiated(Yes(resp), Some(Opened(transactionId, challenge, serverChallenge)), signed)
  }

  /** What initiation has signed, if it comes to that. */
  function InitiateMessage(env: Env, challenge: Bytes, transactionId: Block, serverChallenge: Block, own: Bytes)
    : Bytes
  {
    if |challenge| == 16 then env.codec.serverSigned1(transactionId, challenge, own, serverChallenge) else []
  }

  // ---- rsp_dp_authenticate_client ----

  /** What a verified response establishes about the card. */
  datatype Identity = Identity(cert: Bytes, eid: Bytes, euiccSignature1: Signature)

  /** Every check of section 5.6.3, in order. */
  function VerifyClient(env: Env, transactionId: Block, serverChallenge: Block, resp: Bytes, metadata: Bytes)
    : Answer<Identity>
  {
    if resp == [] || metadata == [] then Unreached
    else
      match env.codec.metadata(metadata)
      case None => Unreached
      case Some(v) =>
        if v.iccid != 10 || v.profileName > 64 || v.serviceProvider > 32 then Unreached
        else
          match env.codec.serverResponse(resp)
          case None => Unreached
          case Some(ResponseError) => Unreached
          case Some(ResponseOk(tid, challenge, eum, euicc, signed1, sig1)) =>
            if tid != transactionId then No
            else if challenge != serverChallenge then No
            else if !env.pki.parses(eum) || !env.pki.parses(euicc) then Unreached
            else if !env.pki.chainsToCi(eum) then No
            else if !env.pki.chains(euicc, eum) then No
            else if |sig1| != 64 then Unreached
            else
              match env.pki.verify(euicc, signed1, sig1)
              case No => No
              case Unreached => Unreached
              case Yes(_) =>
                match env.pki.subjectSerial(euicc)
                case None => Unreached
                case Some(eid) =>
                  if |eid| == 0 || |eid| > 32 then Unreached else Yes(Identity(euicc, eid, sig1))
  }

  function SmdpSigned2Message(env: Env, transactionId: Block, id: Identity): Bytes {
    Chained(env.codec.smdpSigned2(transactionId), id.euiccSignature1)
  }

  /** What a call has signed, if it comes to that. */
  function ClientMessage(env: Env, st: DpState, resp: Bytes, metadata: Bytes): Bytes {
    match VerifyClient(env, st.transactionId, st.serverChallenge, resp, metadata)
    case Yes(id) => SmdpSigned2Message(env, st.transactionId, id)
    case _ => []
  }

  /** `answer` is what DPpb answers if asked. */
  function Authenticate(env: Env, st: DpState, resp: Bytes, metadata: Bytes, answer: Option<Signature>): Outcome {
    match VerifyClient(env, st.transactionId, st.serverChallenge, resp, metadata)
    case No => Outcome(No, st, [])
    case Unreached => Outcome(Unreached, st, [])
    case Yes(id) =>
      var message := SmdpSigned2Message(env, st.transactionId, id);
      var signed := [Signed(DPpb, message, answer)];
      match answer
      case None => Outcome(Unreached, st, signed)
      case Some(sig) =>
        var signed2 := env.codec.smdpSigned2(st.transactionId);
        match env.codec.clientOk(st.transactionId, metadata, signed2, sig, env.pki.certificate(DPpb))
        case None => Outcome(Unreached, st, signed)
        case Some(out) =>
          Outcome(Yes(out),
                  st.(authenticated := true, cert := id.cert, eid := id.eid, metadata := metadata,
                      smdpSignature2 := sig),
                  signed)
  }

  // ---- rsp_dp_get_bound_profile_package ----

  /** What a verified PrepareDownloadResponse and the caller's one-time secret give: the
      card's one-time key, ours, and the session keys. */
  datatype Agreed = Agreed(euiccOtpk: Point, otpkDp: Point, keys: Channel.State)

  /** The message euiccSignature2 must be over: euiccSigned2, then this session's own
      smdpSignature2. */
  function Signed2Message(st: DpState, euiccSigned2: Bytes): Bytes {
    Chained(euiccSigned2, st.smdpSignature2)
  }

  function Agree(env: Env, st: DpState, prepare: Bytes, upp: Bytes, otsk: Bytes): Answer<Agreed> {
    if prepare == [] || upp == [] || !st.authenticated then Unreached
    else
      match env.codec.prepareResponse(prepare)
      case None => Unreached
      case Some(DownloadError) => Unreached
      case Some(DownloadOk(tid, otpk, signed2, sig2)) =>
        if tid != st.transactionId then No
        else if |sig2| != 64 then Unreached
        else
          match env.pki.verify(st.cert, Signed2Message(st, signed2), sig2)
          case No => No
          case Unreached => Unreached
          case Yes(_) =>
            if |otpk| != 65 then Unreached
            else
              match PackEid(st.eid)
              case None => Unreached
              case Some(eid) =>
                match Kdf.SessionInit(env.agreement, otsk, otpk, SharedInfo(HOST_ID, eid))
                case None => Unreached
                case Some(keys) =>
                  match env.agreement.publicKey(otsk)
                  case None => Unreached
                  case Some(own) => if |own| != 65 then Unreached else Yes(Agreed(otpk, own, keys))
  }

  function BindInput(st: DpState, upp: Bytes, a: Agreed): Input {
    Input(upp, st.metadata, a.otpkDp, st.transactionId, a.euiccOtpk)
  }

  /** What a call has signed, if it comes to that. */
  function DownloadMessage(env: Env, st: DpState, prepare: Bytes, upp: Bytes, otsk: Bytes): Bytes {
    match Agree(env, st, prepare, upp, otsk)
    case Yes(a) => SignedRequest(BindInput(st, upp, a))
    case _ => []
  }

  ghost function Bind(env: Env, st: DpState, prepare: Bytes, upp: Bytes, otsk: Bytes, answer: Option<Signature>)
    : Outcome
  {
    match Agree(env, st, prepare, upp, otsk)
    case No => Outcome(No, st, [])
    case Unreached => Outcome(Unreached, st, [])
    case Yes(a) =>
      var built := Build(env.suite, answer, a.keys, BindInput(st, upp, a));
      var signed := BuildSigns(DPpb, answer, BindInput(st, upp, a));
      match built.package
      case None => Outcome(Unreached, st, signed)
      case Some(b) => Outcome(Yes(b), st.(haveBppSession := true, bppSession := built.next), signed)
  }

  // ---- the session object ----

  /** struct rsp_dp_session. */
  class DpSession {
    var transactionId: Block
    var euiccChallenge: Block
    var serverChallenge: Block
    var authenticated: bool
    var cert: Bytes
    var eid: Bytes
    var metadata: Bytes
    var smdpSignature2: Signature
    var haveBppSession: bool
    var bppSession: Channel.State

    function Value(): DpState
      reads this
    {
      DpState(transactionId, euiccChallenge, serverChallenge, authenticated, cert, eid, metadata, smdpSignature2,
              haveBppSession, bppSession)
    }

    /** The session as intended: the three identifiers, nothing learned yet. */
    constructor (t: Block, e: Block, s: Block)
      ensures Value() == Opened(t, e, s)
    {
      transactionId, euiccChallenge, serverChallenge := t, e, s;
      authenticated, cert, eid, metadata := false, [], [], [];
      smdpSignature2, haveBppSession, bppSession := NO_SIGNATURE, false, NO_SESSION;
    }

    /** The checks of rsp_dp_authenticate_client, which touch nothing. */
    method CheckResponse(env: Env, resp: Bytes, md: Bytes)
      returns (ret: int, euiccCert: Bytes, serial: Bytes, signature1: Bytes)
      ensures var v := VerifyClient(env, transactionId, serverChallenge, resp, md);
              && ret == v.Code()
              && (ret == 0 ==> |signature1| == 64 && v.value == Identity(euiccCert, serial, signature1))
    {
      ret, euiccCert, serial, signature1 := -2, [], [], [];
      if resp == [] || md == [] {
        return;
      }
      var view := env.codec.metadata(md);
      if view.None? {
        return;
      }
      if view.value.iccid != 10 || view.value.profileName > 64 || view.value.serviceProvider > 32 {
        return;
      }
      var decoded := env.codec.serverResponse(resp);
      if decoded.None? || decoded.value.ResponseError? {
        return;
      }
      var rok := decoded.value;
      if rok.transactionId != transactionId {
        ret := -1;
        return;
      }
      if rok.serverChallenge != serverChallenge {
        ret := -1;
        return;
      }
      if !env.pki.parses(rok.eumCert) || !env.pki.parses(rok.euiccCert) {
        return;
      }
      if !env.pki.chainsToCi(rok.eumCert) {
        ret := -1;
        return;
      }
      if !env.pki.chains(rok.euiccCert, rok.eumCert) {
        ret := -1;
        return;
      }
      if |rok.euiccSignature1| != 64 {
        return;
      }
      var vr := env.pki.verify(rok.euiccCert, rok.euiccSigned1, rok.euiccSignature1);
      if !vr.Yes? {
        ret := vr.Code();
        return;
      }
      var found := env.pki.subjectSerial(rok.euiccCert);
      if found.None? || |found.value| == 0 || |found.value| > 32 {
        return;
      }
      ret, euiccCert, serial, signature1 := 0, rok.euiccCert, found.value, rok.euiccSignature1;
    }

    /** rsp_dp_authenticate_client. The session is written only after the response has been
        encoded. */
    method AuthenticateClient(env: Env, signer: Signer, resp: Bytes, md: Bytes) returns (ret: int, out: Bytes)
      requires signer.Valid()
      modifies this, signer
      ensures signer.Valid()
      ensures var answer := old(signer.Answer(DPpb, ClientMessage(env, Value(), resp, md)));
              var o := Authenticate(env, old(Value()), resp, md, answer);
              && Value() == o.next && ret == o.answer.Code() && signer.log == old(signer.log) + o.signed
              && (ret == 0 ==> out == o.answer.value)
    {
      hide VerifyClient;
      out := [];
      var euiccCert, serial, signature1;
      ret, euiccCert, serial, signature1 := CheckResponse(env, resp, md);
      if ret != 0 {
        return;
      }
      ret := -2;
      var signed2 := env.codec.smdpSigned2(transactionId);
      var tbs := signed2 + [0x5F, 0x37, 64] + signature1;
      var sig := signer.Sign(DPpb, tbs);
      if sig.None? {
        return;
      }
      var response := env.codec.clientOk(transactionId, md, signed2, sig.value, env.pki.certificate(DPpb));
      if response.None? {
        return;
      }
      out := response.value;
      cert := euiccCert;
      eid := serial;
      metadata := md;
      smdpSignature2 := sig.value;
      authenticated := true;
      ret := 0;
    }

    /** The checks and the key agreement of rsp_dp_get_bound_profile_package: on success a
        fresh session object holds the keys. */
    method AgreeKeys(env: Env, prepare: Bytes, upp: Bytes, otsk: Bytes)
      returns (ret: int, s: Scp03t.Session, euiccOtpk: Bytes, otpkDp: Bytes)
      ensures fresh(s) && fresh(s.encCounter) && s.Valid()
      ensures var a := Agree(env, Value(), prepare, upp, otsk);
              && ret == a.Code()
              && (ret == 0 ==> |euiccOtpk| == 65 && |otpkDp| == 65 && a.value == Agreed(euiccOtpk, otpkDp, s.Value()))
    {
      ret, euiccOtpk, otpkDp := -2, [], [];
      s := new Scp03t.Session();
      if prepare == [] || upp == [] || !authenticated {
        return;
      }
      var decoded := env.codec.prepareResponse(prepare);
      if decoded.None? || decoded.value.DownloadError? {
        return;
      }
      var rok := decoded.value;
      if rok.transactionId != transactionId {
        ret := -1;
        return;
      }
      if |rok.euiccSignature2| != 64 {
        return;
      }
      var tbs := rok.euiccSigned2 + [0x5F, 0x37, 64] + smdpSignature2;
      var vr := env.pki.verify(cert, tbs, rok.euiccSignature2);
      if !vr.Yes? {
        ret := vr.Code();
        return;
      }
      if |rok.euiccOtpk| != 65 {
        return;
      }
      var eidOctets := new byte[16](_ => 0);
      var rc := EidDigitsToOctets(eid, eidOctets);
      if rc != 0 {
        return;
      }
      var info := new byte[2 + 1 + |HOST_ID| + 1 + 32](_ => 0);
      var infoLen;
      rc, infoLen := BuildSharedInfo(HOST_ID, eidOctets[..], info);
      if rc != 0 {
        return;
      }
      rc := s.Init(env.agreement, otsk, rok.euiccOtpk, info[..infoLen]);
      if rc != 0 {
        return;
      }
      var own := env.agreement.publicKey(otsk);
      if own.None? || |own.value| != 65 {
        return;
      }
      ret, euiccOtpk, otpkDp := 0, rok.euiccOtpk, own.value;
    }

    /** rsp_dp_get_bound_profile_package. */
    method GetBoundProfilePackage(env: Env, signer: Signer, prepare: Bytes, upp: Bytes, otsk: Bytes)
      returns (ret: int, bpp: array?<byte>, bppLen: nat)
      requires signer.Valid()
      requires |upp| <= GB.LIMIT / 2 - 0x1000 && |metadata| <= SIZE_MAX
      modifies this, signer
      ensures signer.Valid()
      ensures var answer := old(signer.Answer(DPpb, DownloadMessage(env, Value(), prepare, upp, otsk)));
              var o := Bind(env, old(Value()), prepare, upp, otsk, answer);
              && Value() == o.next && ret == o.answer.Code() && signer.log == old(signer.log) + o.signed
              && (ret == 0 ==> bpp != null && bppLen <= bpp.Length && bpp[..bppLen] == o.answer.value)
              && (ret != 0 ==> bpp == null)
    {
      hide Agree, Build, Kdf.SessionInit;
      bpp, bppLen := null, 0;
      var s, euiccOtpk, otpkDp;
      ret, s, euiccOtpk, otpkDp := AgreeKeys(env, prepare, upp, otsk);
      if ret != 0 {
        return;
      }
      AgreeNeedsUpp(env, Value(), prepare, upp, otsk);
      var input := Input(upp, metadata, otpkDp, transactionId, euiccOtpk);
      var rc;
      rc, bpp, bppLen := Bpp.BuildPackage(env.suite, signer, DPpb, s, input);
      if rc != 0 {
        ret := -2;
        return;
      }
      bppSession := s.Value();
      haveBppSession := true;
    }
  }

  lemma AgreeNeedsUpp(env: Env, st: DpState, prepare: Bytes, upp: Bytes, otsk: Bytes)
    requires Agree(env, st, prepare, upp, otsk).Yes?
    ensures upp != [] && st.authenticated
  {
  }

  /** rsp_dp_initiate_authentication. */
  method InitiateAuthentication(
    env: Env, signer: Signer, challenge: Bytes, info1: Bytes, transactionId: Block, serverChallenge: Block,
    own: Bytes, requested: Option<Bytes>)
    returns (ret: int, session: DpSession?, resp: Bytes)
    requires signer.Valid()
    modifies signer
    ensures signer.Valid()
    ensures var message := InitiateMessage(env, challenge, transactionId, serverChallenge, own);
            var answer := old(signer.Answer(DPauth, message));
            var i := Initiate(env, challenge, info1, transactionId, serverChallenge, own, requested, answer);
            && ret == i.answer.Code() && signer.log == old(signer.log) + i.signed
            && (session != null <==> ret == 0)
            && (ret == 0 ==> fresh(session) && Some(session.Value()) == i.session && resp == i.answer.value)
  {
    ret, session, resp := -2, null, [];
    if |challenge| != 16 || info1 == [] {
      return;
    }
    if requested.Some? {
      var same := AsciiEqual(own, requested.value);
      if !same {
        ret := -1;
        return;
      }
    }
    if !env.codec.info1Decodes(info1) {
      return;
    }
    var signed1 := env.codec.serverSigned1(transactionId, challenge, own, serverChallenge);
    var sig := signer.Sign(DPauth, signed1);
    if sig.None? {
      return;
    }
    if env.pki.ciKeyId.None? {
      return;
    }
    var certificate := env.pki.certificate(DPauth);
    var encoded := env.codec.initiateOk(transactionId, signed1, sig.value, env.pki.ciKeyId.value, certificate);
    if encoded.None? {
      return;
    }
    resp := encoded.value;
    session := new DpSession(transactionId, challenge, serverChallenge);
    ret := 0;
  }
}
