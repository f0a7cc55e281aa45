/** What every run of the session machine keeps, from the session that initiation hands
    out. */
module Es9Runs {
  import opened Octets
  import opened Binding
  import opened Es9
  import opened Signing
  import Channel
  import Kdf
  import Wire
  import Es9Exact

  /** One call, and what the signing key answers should it be asked. */
  datatype Call =
    | AuthenticateCall(resp: Bytes, metadata: Bytes, answer: Option<Signature>)
    | BindCall(prepare: Bytes, upp: Bytes, otsk: Bytes, answer: Option<Signature>)

  ghost function Step(env: Env, st: DpState, call: Call): Outcome {
    match call
    case AuthenticateCall(resp, metadata, answer) => Authenticate(env, st, resp, metadata, answer)
    case BindCall(prepare, upp, otsk, answer) => Bind(env, st, prepare, upp, otsk, answer)
  }

  /** The session after a run of calls. */
  ghost function After(env: Env, start: DpState, calls: seq<Call>): DpState {
    if calls == [] then start
    else Step(env, After(env, start, calls[..|calls| - 1]), calls[|calls| - 1]).next
  }

  /** What the i-th call of a run does. */
  ghost function At(env: Env, start: DpState, calls: seq<Call>, i: nat): Outcome
    requires i < |calls|
  {
    Step(env, After(env, start, calls[..i]), calls[i])
  }

  predicate IsStart(st: DpState) {
    st == Opened(st.transactionId, st.euiccChallenge, st.serverChallenge)
  }

  /** The i-th call was an accepted AuthenticateClient. */
  ghost predicate AcceptedClient(env: Env, start: DpState, calls: seq<Call>, i: nat) {
    i < |calls| && calls[i].AuthenticateCall? && At(env, start, calls, i).answer.Yes?
  }

  /** The response is this card's answer to this session: it names the transaction and repeats
      the challenge, its certificate chains to the CI through its EUM certificate and carries
      the EID, and its signature over euiccSigned1 verifies under that certificate. */
  ghost predicate Genuine(env: Env, tid: Block, challenge: Block, resp: Bytes, id: Identity) {
    exists r :: env.codec.serverResponse(resp) == Some(r) && r.ResponseOk?
             && r.transactionId == tid && r.serverChallenge == challenge
             && r.euiccCert == id.cert && r.euiccSignature1 == id.euiccSignature1
             && env.pki.chainsToCi(r.eumCert) && env.pki.chains(id.cert, r.eumCert)
             && env.pki.verify(id.cert, r.euiccSigned1, r.euiccSignature1).Yes?
             && env.pki.subjectSerial(id.cert) == Some(id.eid) && 1 <= |id.eid| <= 32
  }

  lemma IdentityIsVerified(env: Env, tid: Block, challenge: Block, resp: Bytes, metadata: Bytes)
    requires VerifyClient(env, tid, challenge, resp, metadata).Yes?
    ensures Genuine(env, tid, challenge, resp, VerifyClient(env, tid, challenge, resp, metadata).value)
  {
    var r := env.codec.serverResponse(resp).value;
    assert env.codec.serverResponse(resp) == Some(r);
  }

  /** Certificate, EID, metadata and smdpSignature2 in `st` all come from the i-th call's one
      accepted response: the certificate chains to the CI through the response's own EUM
      certificate and carries the EID, the card signed this session's challenge with it, and
      the signature kept is what DPpb answered in that call to smdpSigned2 and that card's
      signature. */
  ghost predicate LearnedFrom(env: Env, start: DpState, st: DpState, calls: seq<Call>, i: nat) {
    && AcceptedClient(env, start, calls, i)
    && var v := VerifyClient(env, start.transactionId, start.serverChallenge, calls[i].resp, calls[i].metadata);
       && v.Yes?
       && st.cert == v.value.cert && st.eid == v.value.eid && st.metadata == calls[i].metadata
       && At(env, start, calls, i).signed ==
          [Signed(DPpb, env.codec.smdpSigned2(start.transactionId) + [0x5F, 0x37, 0x40] + v.value.euiccSignature1,
                  Some(st.smdpSignature2))]
       && Genuine(env, start.transactionId, start.serverChallenge, calls[i].resp, v.value)
  }

  /** The response is well-formed and its answer wrong: another transaction, another challenge,
      a broken chain, or a signature that does not verify. */
  ghost predicate WrongCard(env: Env, tid: Block, challenge: Block, resp: Bytes, metadata: Bytes) {
    && resp != [] && metadata != []
    && (exists v :: env.codec.metadata(metadata) == Some(v)
                 && v.iccid == 10 && v.profileName <= 64 && v.serviceProvider <= 32)
    && (exists r :: env.codec.serverResponse(resp) == Some(r) && r.ResponseOk?
                 && (|| r.transactionId != tid
                     || r.serverChallenge != challenge
                     || (env.pki.parses(r.eumCert) && env.pki.parses(r.euiccCert) &&
                         (|| !env.pki.chainsToCi(r.eumCert)
                          || !env.pki.chains(r.euiccCert, r.eumCert)
                          || (|r.euiccSignature1| == 64 &&
                              env.pki.verify(r.euiccCert, r.euiccSigned1, r.euiccSignature1) == No)))))
  }

  lemma ClientRefusedIff(env: Env, st: DpState, resp: Bytes, metadata: Bytes, answer: Option<Signature>)
    ensures Authenticate(env, st, resp, metadata, answer).answer == No <==>
            WrongCard(env, st.transactionId, st.serverChallenge, resp, metadata)
  {
    var v, r := env.codec.metadata(metadata), env.codec.serverResponse(resp);
    assert v.Some? ==> v == Some(v.value);
    assert r.Some? ==> r == Some(r.value);
  }

  /** The session knows a card, and the download response is for another transaction or its
      signature does not verify, under that card's certificate, over euiccSigned2 chained to
      the session's own signature. */
  ghost predicate WrongDownload(env: Env, tid: Block, st: DpState, prepare: Bytes, upp: Bytes) {
    && prepare != [] && upp != [] && st.authenticated
    && exists r :: env.codec.prepareResponse(prepare) == Some(r) && r.DownloadOk?
                && (|| r.transactionId != tid
                    || (|r.euiccSignature2| == 64 &&
                        env.pki.verify(st.cert, r.euiccSigned2 + [0x5F, 0x37, 0x40] + st.smdpSignature2,
                                       r.euiccSignature2) == No))
  }

  lemma DownloadRefusedIff(env: Env, st: DpState, prepare: Bytes, upp: Bytes, otsk: Bytes, answer: Option<Signature>)
    ensures Bind(env, st, prepare, upp, otsk, answer).answer == No <==>
            WrongDownload(env, st.transactionId, st, prepare, upp)
  {
    hide Build, Kdf.SessionInit, PackEid;
    var r := env.codec.prepareResponse(prepare);
    assert r.Some? ==> r == Some(r.value);
  }

  /** What one call keeps, whatever it is and however it ends. */
  lemma StepKeeps(env: Env, st: DpState, call: Call)
    ensures var o := Step(env, st, call);
            && o.next.transactionId == st.transactionId
            && o.next.euiccChallenge == st.euiccChallenge
            && o.next.serverChallenge == st.serverChallenge
            && (st.authenticated ==> o.next.authenticated)
            && (!o.answer.Yes? ==> o.next == st)
            && (call.BindCall? ==>
                  o.next == st.(haveBppSession := o.next.haveBppSession, bppSession := o.next.bppSession))
            && (call.AuthenticateCall? ==>
                  o.next.haveBppSession == st.haveBppSession && o.next.bppSession == st.bppSession)
  {
    hide VerifyClient, Agree, Build;
  }

  /** The identifiers never change, authentication is never lost, and a call that is not
      accepted changes nothing -- over every run. */
  lemma {:induction false} RunKeeps(env: Env, start: DpState, calls: seq<Call>, i: nat)
    requires i <= |calls|
    ensures var st, end := After(env, start, calls[..i]), After(env, start, calls);
            && st.transactionId == end.transactionId == start.transactionId
            && st.euiccChallenge == end.euiccChallenge == start.euiccChallenge
            && st.serverChallenge == end.serverChallenge == start.serverChallenge
            && (st.authenticated ==> end.authenticated)
            && ((forall k :: i <= k < |calls| ==> !At(env, start, calls, k).answer.Yes?) ==> end == st)
    decreases |calls|
  {
    hide Step;
    if i < |calls| {
      var front, last := calls[..|calls| - 1], calls[|calls| - 1];
      assert front[..i] == calls[..i];
      RunKeeps(env, start, front, i);
      StepKeeps(env, After(env, start, front), last);
      assert At(env, start, calls, |calls| - 1) == Step(env, After(env, start, front), last);
      forall k | i <= k < |front|
        ensures At(env, start, front, k) == At(env, start, calls, k)
      {
        assert front[..k] == calls[..k];
      }
    } else {
      assert calls[..i] == calls;
      StartKeeps(env, start, calls);
    }
  }

  lemma {:induction false} StartKeeps(env: Env, start: DpState, calls: seq<Call>)
    ensures var end := After(env, start, calls);
            && end.transactionId == start.transactionId
            && end.euiccChallenge == start.euiccChallenge
            && end.serverChallenge == start.serverChallenge
    decreases |calls|
  {
    hide Step;
    if calls != [] {
      StartKeeps(env, start, calls[..|calls| - 1]);
      StepKeeps(env, After(env, start, calls[..|calls| - 1]), calls[|calls| - 1]);
    }
  }

  /** What -1 means over a run: the i-th call answers it exactly when what it was given is
      wrong for the transaction and challenge the session was opened with, or, for a download,
      for the card the session then knew. Everything else that fails is -2: a key, an EID or
      a package that fails after a download has verified, too. */
  lemma RefusedIff(env: Env, start: DpState, calls: seq<Call>, i: nat)
    requires i < |calls|
    ensures At(env, start, calls, i).answer == No <==>
            if calls[i].AuthenticateCall? then
              WrongCard(env, start.transactionId, start.serverChallenge, calls[i].resp, calls[i].metadata)
            else
              WrongDownload(env, start.transactionId, After(env, start, calls[..i]), calls[i].prepare, calls[i].upp)
  {
    hide Authenticate, Bind, WrongCard, WrongDownload, After;
    StartKeeps(env, start, calls[..i]);
    var st, call := After(env, start, calls[..i]), calls[i];
    if call.AuthenticateCall? {
      ClientRefusedIff(env, st, call.resp, call.metadata, call.answer);
    } else {
      DownloadRefusedIff(env, st, call.prepare, call.upp, call.otsk, call.answer);
    }
  }

  /** The i-th call is the last accepted AuthenticateClient of the run. */
  ghost predicate LastAccepted(env: Env, start: DpState, calls: seq<Call>, i: nat) {
    && AcceptedClient(env, start, calls, i)
    && forall k :: i < k < |calls| ==> !AcceptedClient(env, start, calls, k)
  }

  /** A longer run does what the shorter one did, call by call. */
  lemma RunExtends(env: Env, start: DpState, front: seq<Call>, last: Call)
    ensures var calls := front + [last];
            && After(env, start, calls) == Step(env, After(env, start, front), last).next
            && At(env, start, calls, |front|) == Step(env, After(env, start, front), last)
            && forall k :: 0 <= k < |front| ==>
                 calls[k] == front[k] && At(env, start, calls, k) == At(env, start, front, k)
  {
    hide Step;
    var calls := front + [last];
    assert calls[..|front|] == front;
    forall k | 0 <= k < |front|
      ensures At(env, start, calls, k) == At(env, start, front, k)
    {
      assert front[..k] == calls[..k];
    }
  }

  /** What the session knows of the card always comes from one and the same response: the
      last one accepted. A session that claims a card has accepted one. */
  lemma {:induction false} KnowledgeIsFromOneResponse(env: Env, start: DpState, calls: seq<Call>)
    returns (i: nat)
    requires IsStart(start)
    ensures var end := After(env, start, calls);
            && (end.authenticated <==> exists k :: AcceptedClient(env, start, calls, k))
            && (end.authenticated ==>
                  LastAccepted(env, start, calls, i) && LearnedFrom(env, start, end, calls, i))
            && (!end.authenticated ==> end == start)
    decreases |calls|
  {
    hide Bind, VerifyClient, SmdpSigned2Message, Step, At, Genuine;
    i := 0;
    if calls != [] {
      var n := |calls| - 1;
      var front, last := calls[..n], calls[n];
      assert calls == front + [last];
      var st := After(env, start, front);
      i := KnowledgeIsFromOneResponse(env, start, front);
      StartKeeps(env, start, front);
      StepKeeps(env, st, last);
      RunExtends(env, start, front, last);
      if last.AuthenticateCall? && Step(env, st, last).answer.Yes? {
        i := n;
        AcceptedIsLearned(env, st, last);
        IdentityIsVerified(env, st.transactionId, st.serverChallenge, last.resp, last.metadata);
        assert AcceptedClient(env, start, calls, n);
      } else {
        assert !AcceptedClient(env, start, calls, n);
        assert forall k :: AcceptedClient(env, start, calls, k) <==> AcceptedClient(env, start, front, k);
        if !st.authenticated && last.BindCall? {
          UnauthenticatedCannotBind(env, st, last);
        }
      }
    }
  }

  lemma AcceptedIsLearned(env: Env, st: DpState, call: Call)
    requires call.AuthenticateCall? && Step(env, st, call).answer.Yes?
    ensures var v := VerifyClient(env, st.transactionId, st.serverChallenge, call.resp, call.metadata);
            var next := Step(env, st, call).next;
            && v.Yes? && next.authenticated
            && next.cert == v.value.cert && next.eid == v.value.eid && next.metadata == call.metadata
            && Step(env, st, call).signed ==
               [Signed(DPpb, env.codec.smdpSigned2(st.transactionId) + [0x5F, 0x37, 0x40] + v.value.euiccSignature1,
                       Some(next.smdpSignature2))]
  {
    hide VerifyClient;
  }

  lemma UnauthenticatedCannotBind(env: Env, st: DpState, call: Call)
    requires !st.authenticated && call.BindCall?
    ensures Step(env, st, call).next == st && !Step(env, st, call).answer.Yes? && Step(env, st, call).signed == []
  {
  }

  // ---- what the keys are used for ----

  /** Every use of a key after initiation, in order. */
  ghost function Log(env: Env, start: DpState, calls: seq<Call>): seq<Signed> {
    if calls == [] then []
    else
      var n := |calls| - 1;
      Log(env, start, calls[..n]) + At(env, start, calls, n).signed
  }

  /** What a call may hand to DPpb: smdpSigned2 chained to the signature of a card just
      verified, or the secure channel request of a download just verified, both octet for
      octet. */
  ghost predicate MaySign(env: Env, st: DpState, call: Call, message: Bytes) {
    match call
    case AuthenticateCall(resp, metadata, _) =>
      && VerifyClient(env, st.transactionId, st.serverChallenge, resp, metadata).Yes?
      && exists r :: env.codec.serverResponse(resp) == Some(r) && r.ResponseOk?
                  && message == env.codec.smdpSigned2(st.transactionId) + [0x5F, 0x37, 0x40] + r.euiccSignature1
    case BindCall(prepare, upp, otsk, _) =>
      && Agree(env, st, prepare, upp, otsk).Yes?
      && exists r, own :: env.codec.prepareResponse(prepare) == Some(r) && r.DownloadOk?
                       && env.agreement.publicKey(otsk) == Some(own)
                       && message ==
                          [0x82, 0x01, 0x01, 0x80, 0x10] + st.transactionId +
                          [0xA6, 0x11, 0x80, 0x01, 0x88, 0x81, 0x01, 0x10,
                           0x84, 0x09, 0x65, 0x75, 0x69, 0x63, 0x63, 0x2D, 0x72, 0x73, 0x70] +
                          [0x5F, 0x49, 0x41] + own + [0x5F, 0x49, 0x41] + r.euiccOtpk
  }

  lemma ClientSigns(env: Env, tid: Block, challenge: Block, resp: Bytes, metadata: Bytes)
    requires VerifyClient(env, tid, challenge, resp, metadata).Yes?
    ensures var id := VerifyClient(env, tid, challenge, resp, metadata).value;
            exists r :: env.codec.serverResponse(resp) == Some(r) && r.ResponseOk?
                     && SmdpSigned2Message(env, tid, id) ==
                        env.codec.smdpSigned2(tid) + [0x5F, 0x37, 0x40] + r.euiccSignature1
  {
    var r := env.codec.serverResponse(resp).value;
    assert env.codec.serverResponse(resp) == Some(r);
  }

  lemma DownloadSigns(env: Env, st: DpState, prepare: Bytes, upp: Bytes, otsk: Bytes)
    requires Agree(env, st, prepare, upp, otsk).Yes?
    ensures var input := BindInput(st, upp, Agree(env, st, prepare, upp, otsk).value);
            && input.transactionId == st.transactionId
            && exists r, own :: env.codec.prepareResponse(prepare) == Some(r) && r.DownloadOk?
                             && env.agreement.publicKey(otsk) == Some(own)
                             && input.otpkDp == own && input.euiccOtpk == r.euiccOtpk
  {
    hide Kdf.SessionInit;
    var r, own := env.codec.prepareResponse(prepare).value, env.agreement.publicKey(otsk).value;
    assert env.codec.prepareResponse(prepare) == Some(r) && env.agreement.publicKey(otsk) == Some(own);
  }

  /** One call uses DPpb at most once, and only so. */
  lemma WhatIsSigned(env: Env, st: DpState, call: Call)
    ensures var signed := Step(env, st, call).signed;
            && |signed| <= 1
            && forall s :: s in signed ==> s.key == DPpb && MaySign(env, st, call, s.message) && s.answer == call.answer
  {
    hide VerifyClient, Agree, Build, SignedRequest, SmdpSigned2Message;
    if call.AuthenticateCall? {
      if VerifyClient(env, st.transactionId, st.serverChallenge, call.resp, call.metadata).Yes? {
        ClientSigns(env, st.transactionId, st.serverChallenge, call.resp, call.metadata);
      }
    } else if Agree(env, st, call.prepare, call.upp, call.otsk).Yes? {
      DownloadSigns(env, st, call.prepare, call.upp, call.otsk);
      Wire.SignedOnWire(BindInput(st, call.upp, Agree(env, st, call.prepare, call.upp, call.otsk).value));
    }
  }

  /** Over every run: each use of a key on record is DPpb's, made by one of the run's calls,
      for a message that call may sign in the session it found. */
  lemma {:induction false} EveryUseIsDue(env: Env, start: DpState, calls: seq<Call>, s: Signed)
    returns (i: nat)
    requires s in Log(env, start, calls)
    ensures i < |calls| && s in At(env, start, calls, i).signed
    ensures s.key == DPpb && MaySign(env, After(env, start, calls[..i]), calls[i], s.message)
    decreases |calls|
  {
    hide Step, MaySign, After, At;
    var n := |calls| - 1;
    var front := calls[..n];
    if s in At(env, start, calls, n).signed {
      i := n;
    } else {
      i := EveryUseIsDue(env, start, front, s);
      assert calls == front + [calls[n]];
      RunExtends(env, start, front, calls[n]);
    }
    UsedAt(env, start, calls, i, s);
  }

  lemma UsedAt(env: Env, start: DpState, calls: seq<Call>, i: nat, s: Signed)
    requires i < |calls| && s in At(env, start, calls, i).signed
    ensures s.key == DPpb && MaySign(env, After(env, start, calls[..i]), calls[i], s.message)
  {
    hide Step, MaySign, After;
    WhatIsSigned(env, After(env, start, calls[..i]), calls[i]);
  }

  /** Initiation uses DPauth alone, at most once, for serverSigned1 over the three identifiers
      and the SM-DP+'s own address; it opens a session exactly when it answers 0, and
      refuses with -1 exactly when a received address differs. */
  lemma InitiationSigns(
    env: Env, challenge: Bytes, info1: Bytes, tid: Block, sch: Block, own: Bytes, requested: Option<Bytes>,
    answer: Option<Signature>)
    ensures var i := Initiate(env, challenge, info1, tid, sch, own, requested, answer);
            && (i.signed == [] ||
                (|challenge| == 16 &&
                 i.signed == [Signed(DPauth, env.codec.serverSigned1(tid, challenge, own, sch), answer)]))
            && (i.answer.Yes? ==> i.signed != [])
            && (i.answer.Yes? <==> i.session.Some?)
            && (i.session.Some? ==>
                  |challenge| == 16 && i.session.value == Opened(tid, challenge, sch) && IsStart(i.session.value))
            && (i.answer == No <==>
                  && |challenge| == 16 && info1 != [] && requested.Some?
                  && !(|own| == |requested.value| &&
                       forall i :: 0 <= i < |own| ==>
                         var a, b := own[i], requested.value[i];
                         || a == b
                         || (0x41 <= a <= 0x5A && b == a + 0x20)
                         || (0x41 <= b <= 0x5A && a == b + 0x20)))
  {
    if requested.Some? {
      Es9Exact.SameAddressIff(own, requested.value);
    }
  }

  /** The two keys are kept apart. Of everything on record from an accepted initiation on,
      whatever calls follow: DPauth was handed serverSigned1 and nothing else, DPpb only what
      one of the calls may sign. */
  lemma KeysAreKeptApart(
    env: Env, challenge: Bytes, info1: Bytes, tid: Block, sch: Block, own: Bytes, requested: Option<Bytes>,
    opening: Option<Signature>, calls: seq<Call>, s: Signed)
    requires Initiate(env, challenge, info1, tid, sch, own, requested, opening).answer.Yes?
    requires s in Initiate(env, challenge, info1, tid, sch, own, requested, opening).signed +
                  Log(env, Opened(tid, challenge, sch), calls)
    ensures match s.key
            case DPauth => s.message == env.codec.serverSigned1(tid, challenge, own, sch)
            case DPpb =>
              exists i :: 0 <= i < |calls| &&
                          MaySign(env, After(env, Opened(tid, challenge, sch), calls[..i]), calls[i], s.message)
  {
    hide Initiate, MaySign, Log, After;
    InitiationSigns(env, challenge, info1, tid, sch, own, requested, opening);
    if s in Log(env, Opened(tid, challenge, sch), calls) {
      var i := EveryUseIsDue(env, Opened(tid, challenge, sch), calls, s);
    }
  }

  /** No package without proof of possession: whenever a call of a run issues one, the
      session had accepted a card before, and the download response's signature verifies,
      under that card's certificate, over euiccSigned2 followed by the very smdpSignature2
      that accepted call produced. */
  lemma PackageNeedsVerifiedCard(env: Env, start: DpState, calls: seq<Call>, b: nat)
    returns (i: nat)
    requires IsStart(start)
    requires b < |calls| && calls[b].BindCall? && At(env, start, calls, b).answer.Yes?
    ensures i < b && LastAccepted(env, start, calls[..b], i)
    ensures var st := After(env, start, calls[..b]);
            && LearnedFrom(env, start, st, calls[..b], i)
            && exists r :: env.codec.prepareResponse(calls[b].prepare) == Some(r) && r.DownloadOk?
                        && r.transactionId == start.transactionId
                        && env.pki.verify(st.cert, r.euiccSigned2 + [0x5F, 0x37, 0x40] + st.smdpSignature2,
                                          r.euiccSignature2).Yes?
  {
    hide VerifyClient, LearnedFrom, Build;
    i := KnowledgeIsFromOneResponse(env, start, calls[..b]);
    StartKeeps(env, start, calls[..b]);
    var st := After(env, start, calls[..b]);
    BindNeedsVerification(env, st, calls[b].prepare, calls[b].upp, calls[b].otsk);
  }

  lemma BindNeedsVerification(env: Env, st: DpState, prepare: Bytes, upp: Bytes, otsk: Bytes)
    requires Agree(env, st, prepare, upp, otsk).Yes?
    ensures st.authenticated
    ensures exists r :: env.codec.prepareResponse(prepare) == Some(r) && r.DownloadOk?
                     && r.transactionId == st.transactionId
                     && env.pki.verify(st.cert, r.euiccSigned2 + [0x5F, 0x37, 0x40] + st.smdpSignature2,
                                       r.euiccSignature2).Yes?
  {
    var r := env.codec.prepareResponse(prepare).value;
    assert env.codec.prepareResponse(prepare) == Some(r);
  }

  ghost predicate AcceptedBind(env: Env, start: DpState, calls: seq<Call>, b: nat) {
    b < |calls| && calls[b].BindCall? && At(env, start, calls, b).answer.Yes?
  }

  ghost predicate LastBind(env: Env, start: DpState, calls: seq<Call>, b: nat) {
    AcceptedBind(env, start, calls, b) && forall k :: b < k < |calls| ==> !AcceptedBind(env, start, calls, k)
  }

  /** Whose keys the stored session is: those of the last accepted bind, derived over the
      EID known then. */
  lemma {:induction false} KeysAreFromLastBind(env: Env, start: DpState, calls: seq<Call>)
    returns (b: nat)
    requires IsStart(start)
    ensures var end := After(env, start, calls);
            && (end.haveBppSession <==> exists k :: AcceptedBind(env, start, calls, k))
            && (end.haveBppSession ==>
                  && LastBind(env, start, calls, b)
                  && KeysOf(env, After(env, start, calls[..b]), calls[b], end.bppSession))
    decreases |calls|
  {
    hide Step, At, KeysOf;
    b := 0;
    if calls != [] {
      var n := |calls| - 1;
      var front, last := calls[..n], calls[n];
      assert calls == front + [last];
      var st := After(env, start, front);
      b := KeysAreFromLastBind(env, start, front);
      StepKeeps(env, st, last);
      RunExtends(env, start, front, last);
      if last.BindCall? && Step(env, st, last).answer.Yes? {
        b := n;
        BindStoresKeys(env, st, last);
        assert AcceptedBind(env, start, calls, n);
      } else {
        assert !AcceptedBind(env, start, calls, n);
        assert forall k :: AcceptedBind(env, start, calls, k) <==> AcceptedBind(env, start, front, k);
        if st.haveBppSession {
          assert calls[..b] == front[..b];
        }
      }
    }
  }

  /** What is known of the card changes only when a card is accepted. */
  lemma {:induction false} CardIsKept(env: Env, start: DpState, calls: seq<Call>, i: nat)
    requires i <= |calls|
    requires forall k :: i <= k < |calls| ==> !AcceptedClient(env, start, calls, k)
    ensures After(env, start, calls).eid == After(env, start, calls[..i]).eid
    decreases |calls|
  {
    hide Step, At;
    if i < |calls| {
      var n := |calls| - 1;
      var front, last := calls[..n], calls[n];
      assert calls == front + [last] && front[..i] == calls[..i];
      RunExtends(env, start, front, last);
      assert forall k :: i <= k < n ==>
                           (AcceptedClient(env, start, front, k) <==> AcceptedClient(env, start, calls, k));
      CardIsKept(env, start, front, i);
      assert !AcceptedClient(env, start, calls, n);
      StepKeeps(env, After(env, start, front), last);
    } else {
      assert calls[..i] == calls;
    }
  }

  /** Exactly when the stored keys belong to the EID the session holds, b being the last
      accepted bind and i the last accepted response: the response came first, or the EID its
      certificate carries is the one the keys were derived over. */
  lemma KeysMatchEidIff(env: Env, start: DpState, calls: seq<Call>, b: nat, i: nat)
    requires IsStart(start)
    requires LastBind(env, start, calls, b) && LastAccepted(env, start, calls, i)
    ensures var end, bound := After(env, start, calls), After(env, start, calls[..b]);
            var v := VerifyClient(env, start.transactionId, start.serverChallenge, calls[i].resp, calls[i].metadata);
            && KeysOf(env, bound, calls[b], end.bppSession)
            && v.Yes?
            && (end.eid == bound.eid <==> i < b || v.value.eid == bound.eid)
  {
    hide Step, At, KeysOf, VerifyClient;
    var b' := KeysAreFromLastBind(env, start, calls);
    var i' := KnowledgeIsFromOneResponse(env, start, calls);
    assert AcceptedBind(env, start, calls, b) && AcceptedClient(env, start, calls, i);
    assert b' == b && i' == i && i != b;
    if i < b {
      CardIsKept(env, start, calls, b);
    }
  }

  /** `keys` is the session a package built in state `st` by this call ends in, started from
      the agreement of the one-time keys over this SM-DP+'s host and st's EID. */
  ghost predicate KeysOf(env: Env, st: DpState, call: Call, keys: Channel.State) {
    && call.BindCall?
    && var a := Agree(env, st, call.prepare, call.upp, call.otsk);
       && a.Yes? && PackEid(st.eid).Some?
       && Kdf.SessionInit(env.agreement, call.otsk, a.value.euiccOtpk,
                          [0x88, 0x10, 0x09, 0x65, 0x75, 0x69, 0x63, 0x63, 0x2D, 0x72, 0x73, 0x70, 0x10] +
                          PackEid(st.eid).value) ==
          Some(a.value.keys)
       && keys == Build(env.suite, call.answer, a.value.keys, BindInput(st, call.upp, a.value)).next
  }

  lemma BindStoresKeys(env: Env, st: DpState, call: Call)
    requires call.BindCall? && Step(env, st, call).answer.Yes?
    ensures var next := Step(env, st, call).next;
            next.haveBppSession && next.eid == st.eid && KeysOf(env, st, call, next.bppSession)
  {
    hide Build, Kdf.SessionInit, PackEid, SharedInfo;
    Es9Exact.SharedInfoIs(PackEid(st.eid).value);
  }
}
