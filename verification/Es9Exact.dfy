/** The calls of the ES9+ session, written out in octets and in the answers of the codec, the
    agreement and the crypto library alone: what each accepts, derives and answers. */
module Es9Exact {
  import opened Octets
  import opened Binding
  import opened Es9
  import opened Signing
  import Channel
  import Kdf
  import RoundTrip

  // ---- section 5.6.1's address check ----

  /** Two addresses pass for one exactly when, octet by octet, they are equal or the upper and
      lower case of one ASCII letter. */
  lemma SameAddressIff(a: Bytes, b: Bytes)
    ensures SameAddress(a, b) <==>
            && |a| == |b|
            && forall i :: 0 <= i < |a| ==>
                 || a[i] == b[i]
                 || (0x41 <= a[i] <= 0x5A && b[i] == a[i] + 0x20)
                 || (0x41 <= b[i] <= 0x5A && a[i] == b[i] + 0x20)
  {
    hide Fold;
    if |a| == |b| {
      forall i | 0 <= i < |a|
        ensures Fold(a[i]) == Fold(b[i]) <==>
                || a[i] == b[i]
                || (0x41 <= a[i] <= 0x5A && b[i] == a[i] + 0x20)
                || (0x41 <= b[i] <= 0x5A && a[i] == b[i] + 0x20)
      {
        FoldsAlike(a[i], b[i]);
      }
    }
  }

  lemma FoldsAlike(x: byte, y: byte)
    ensures Fold(x) == Fold(y) <==>
            x == y || (0x41 <= x <= 0x5A && y == x + 0x20) || (0x41 <= y <= 0x5A && x == y + 0x20)
  {
  }

  // ---- Annex G ----

  /** An EID is 32 decimal digits; packed, the first of each two is the high half. */
  lemma PackEidIff(eid: Bytes, p: Bytes)
    ensures PackEid(eid) == Some(p) <==>
            && |eid| == 32 && |p| == 16
            && (forall i :: 0 <= i < 32 ==> 0x30 <= eid[i] <= 0x39)
            && forall i :: 0 <= i < 16 ==> p[i] == 16 * (eid[2 * i] - 0x30) + (eid[2 * i + 1] - 0x30)
  {
    if |eid| == 32 && forall i :: 0 <= i < 32 ==> 0x30 <= eid[i] <= 0x39 {
      assert forall i :: 0 <= i < 32 ==> IsDigit(eid[i]);
      var q := PackDigits(eid);
      assert |p| == 16 && (forall i :: 0 <= i < 16 ==> p[i] == q[i]) ==> p == q;
    }
  }

  /** What the keys of an accepted download are, in SHA-256 and octets: the agreed secret, the
      block's number, AES and sixteen octets, "euicc-rsp" and the card's EID. */
  lemma AgreedKeysAre(env: Env, st: DpState, prepare: Bytes, upp: Bytes, otsk: Bytes)
    returns (z: Bytes, eid: Bytes)
    requires Agree(env, st, prepare, upp, otsk).Yes?
    ensures PackEid(st.eid) == Some(eid)
    ensures env.codec.prepareResponse(prepare).Some? && env.codec.prepareResponse(prepare).value.DownloadOk?
    ensures env.agreement.agree(otsk, env.codec.prepareResponse(prepare).value.euiccOtpk) == Some(z)
    ensures var keys, sha := Agree(env, st, prepare, upp, otsk).value.keys, env.agreement.sha256;
            var info := [0x88, 0x10, 0x09, 0x65, 0x75, 0x69, 0x63, 0x63, 0x2D, 0x72, 0x73, 0x70, 0x10] + eid;
            && keys.chain == sha(z + [0, 0, 0, 1] + info)[..16]
            && keys.sEnc == sha(z + [0, 0, 0, 1] + info)[16..]
            && keys.sMac == sha(z + [0, 0, 0, 2] + info)[..16]
            && BeNat(keys.counter) == 1
  {
    hide Kdf.SessionInit, PackEid, SharedInfo;
    eid := PackEid(st.eid).value;
    var otpk := env.codec.prepareResponse(prepare).value.euiccOtpk;
    AgreedSecret(env.agreement, otsk, otpk, SharedInfo(HOST_ID, eid));
    z := env.agreement.agree(otsk, otpk).value;
    Kdf.SessionKeysAre(env.agreement, otsk, otpk, SharedInfo(HOST_ID, eid), z);
    SharedInfoIs(eid);
  }

  lemma AgreedSecret(k: Kdf.Agreement, secret: Bytes, peer: Bytes, info: Bytes)
    requires Kdf.SessionInit(k, secret, peer, info).Some?
    ensures k.agree(secret, peer).Some?
  {
  }

  lemma SharedInfoIs(eid: Bytes)
    requires |eid| == 16
    ensures SharedInfo(HOST_ID, eid) ==
            [0x88, 0x10, 0x09, 0x65, 0x75, 0x69, 0x63, 0x63, 0x2D, 0x72, 0x73, 0x70, 0x10] + eid
  {
  }

  // ---- when each call accepts, and what it answers ----

  /** The session handed out: the three identifiers in their places, nothing learned. */
  lemma OpenedIs(tid: Block, challenge: Block, sch: Block)
    ensures var st := Opened(tid, challenge, sch);
            && st.transactionId == tid && st.euiccChallenge == challenge && st.serverChallenge == sch
            && !st.authenticated && !st.haveBppSession && st.cert == [] && st.eid == [] && st.metadata == []
  {
  }

  /** Initiation accepts exactly a 16-octet challenge and a decodable euiccInfo1, no address
      or its own, once DPauth signs and the codec encodes; and it answers serverSigned1, that
      signature, the CI's key identifier and DPauth's certificate. */
  lemma InitiatesIff(
    env: Env, challenge: Bytes, info1: Bytes, tid: Block, sch: Block, own: Bytes, requested: Option<Bytes>,
    answer: Option<Signature>, resp: Bytes)
    ensures Initiate(env, challenge, info1, tid, sch, own, requested, answer).answer == Yes(resp) <==>
            && |challenge| == 16 && info1 != [] && env.codec.info1Decodes(info1)
            && (requested.Some? ==> SameAddress(own, requested.value))
            && answer.Some? && env.pki.ciKeyId.Some?
            && env.codec.initiateOk(tid, env.codec.serverSigned1(tid, challenge, own, sch), answer.value,
                                    env.pki.ciKeyId.value, env.pki.certificate(DPauth)) == Some(resp)
  {
  }

  /** A card is accepted exactly when metadata and response decode, the metadata's fields are
      in bounds, the response is to this transaction and challenge, its certificates chain to
      the CI, and its signature verifies under a certificate whose subject carries an EID. */
  lemma VerifiesIff(env: Env, tid: Block, sch: Block, resp: Bytes, metadata: Bytes, id: Identity)
    ensures VerifyClient(env, tid, sch, resp, metadata) == Yes(id) <==>
            && resp != [] && metadata != []
            && (exists v :: env.codec.metadata(metadata) == Some(v)
                         && v.iccid == 10 && v.profileName <= 64 && v.serviceProvider <= 32)
            && exists r :: env.codec.serverResponse(resp) == Some(r) && r.ResponseOk?
                        && r.transactionId == tid && r.serverChallenge == sch
                        && env.pki.parses(r.eumCert) && env.pki.parses(r.euiccCert)
                        && env.pki.chainsToCi(r.eumCert) && env.pki.chains(r.euiccCert, r.eumCert)
                        && |r.euiccSignature1| == 64
                        && env.pki.verify(r.euiccCert, r.euiccSigned1, r.euiccSignature1).Yes?
                        && env.pki.subjectSerial(r.euiccCert) == Some(id.eid) && 1 <= |id.eid| <= 32
                        && id.cert == r.euiccCert && id.euiccSignature1 == r.euiccSignature1
  {
    var v, r := env.codec.metadata(metadata), env.codec.serverResponse(resp);
    assert v.Some? ==> v == Some(v.value);
    assert r.Some? ==> r == Some(r.value);
    if VerifyClient(env, tid, sch, resp, metadata).Yes? {
      var found := VerifyClient(env, tid, sch, resp, metadata).value;
      assert found == id <==>
             found.cert == id.cert && found.eid == id.eid && found.euiccSignature1 == id.euiccSignature1;
    }
  }

  /** AuthenticateClient accepts exactly a verified card once DPpb signs and the codec encodes;
      it answers the caller's metadata, smdpSigned2, that signature and DPpb's certificate, and
      keeps certificate, EID, metadata and signature. */
  lemma AuthenticatesIff(
    env: Env, st: DpState, resp: Bytes, metadata: Bytes, answer: Option<Signature>, out: Bytes)
    ensures var o, v := Authenticate(env, st, resp, metadata, answer),
                        VerifyClient(env, st.transactionId, st.serverChallenge, resp, metadata);
            && (o.answer == Yes(out) <==>
                  && v.Yes? && answer.Some?
                  && env.codec.clientOk(st.transactionId, metadata, env.codec.smdpSigned2(st.transactionId),
                                        answer.value, env.pki.certificate(DPpb)) == Some(out))
            && (o.answer == Yes(out) ==>
                  o.next == DpState(st.transactionId, st.euiccChallenge, st.serverChallenge, true, v.value.cert,
                                    v.value.eid, metadata, answer.value, st.haveBppSession, st.bppSession))
  {
    hide VerifyClient;
  }

  /** A download is agreed exactly when the session knows a card, the response is to this
      transaction and signed, under that card's certificate, over euiccSigned2 and the
      session's own smdpSignature2, and both one-time keys and the EID are usable. */
  lemma AgreesIff(env: Env, st: DpState, prepare: Bytes, upp: Bytes, otsk: Bytes)
    ensures Agree(env, st, prepare, upp, otsk).Yes? <==>
            && prepare != [] && upp != [] && st.authenticated
            && PackEid(st.eid).Some?
            && (exists own :: env.agreement.publicKey(otsk) == Some(own) && |own| == 65)
            && exists r :: env.codec.prepareResponse(prepare) == Some(r) && r.DownloadOk?
                        && r.transactionId == st.transactionId
                        && |r.euiccSignature2| == 64 && |r.euiccOtpk| == 65
                        && env.pki.verify(st.cert, r.euiccSigned2 + [0x5F, 0x37, 0x40] + st.smdpSignature2,
                                          r.euiccSignature2).Yes?
                        && env.agreement.agree(otsk, r.euiccOtpk).Some?
  {
    hide PackEid, Kdf.Derive;
    var r, own := env.codec.prepareResponse(prepare), env.agreement.publicKey(otsk);
    assert r.Some? ==> r == Some(r.value);
    assert own.Some? ==> own == Some(own.value);
  }

  /** A package comes out exactly of an agreed download, for metadata and a profile that fit,
      once DPpb signs; and then DPpb has signed exactly this download's request. */
  lemma BindsIff(env: Env, st: DpState, prepare: Bytes, upp: Bytes, otsk: Bytes, answer: Option<Signature>)
    ensures Bind(env, st, prepare, upp, otsk, answer).answer.Yes? <==>
            && Agree(env, st, prepare, upp, otsk).Yes? && answer.Some?
            && RoundTrip.Buildable(|upp|, |st.metadata|)
    ensures var o, a := Bind(env, st, prepare, upp, otsk, answer), Agree(env, st, prepare, upp, otsk);
            o.answer.Yes? ==>
              o.signed == [Signed(DPpb, SignedRequest(Input(upp, st.metadata, a.value.otpkDp, st.transactionId,
                                                            a.value.euiccOtpk)), answer)]
  {
    hide Agree, Build, RoundTrip.Buildable, SignedRequest;
    BuildableHas(|upp|, |st.metadata|);
    var a := Agree(env, st, prepare, upp, otsk);
    if a.Yes? {
      RoundTrip.BuildSucceedsIff(env.suite, answer, a.value.keys, BindInput(st, upp, a.value));
    }
  }

  lemma BuildableHas(n: nat, m: nat)
    ensures RoundTrip.Buildable(n, m) ==> n >= 1 && 1 <= m <= 1007
  {
  }
}
