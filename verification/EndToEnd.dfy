/** The whole download: whatever the server binds, the card it was bound for can open. */
module EndToEnd {
  import opened Octets
  import opened DerLength
  import opened Tlv
  import opened Package
  import opened Binding
  import opened Es9
  import opened Es9Runs
  import opened Signing
  import Channel
  import Cipher
  import Kdf
  import Es9Exact
  import RoundTrip

  /** APPLICATION class. */
  const APPLICATION: nat := 1

  /** The fourth member of a secure channel request: smdpOtpk. */
  function OtpkOfRequest(request: Bytes): Option<Bytes> {
    match Group(request, 2)
    case None => None
    case Some((_, r1)) =>
      match Group(r1, 0)
      case None => None
      case Some((_, r2)) =>
        match Group(r2, 6)
        case None => None
        case Some((_, r3)) => OtpkAt(r3)
  }

  function OtpkAt(p: Bytes): Option<Bytes> {
    match ReadTlv(p)
    case Some(t) => if t.tag == Tag(APPLICATION, 73) then Some(Value(p, t)) else None
    case None => None
  }

  /** What a card reads its peer's one-time key from: the package's own request. */
  function OtpkOfPackage(b: Bytes): Option<Bytes> {
    match Group(b, 54)
    case None => None
    case Some((content, _)) =>
      match Group(content, 35)
      case None => None
      case Some((request, _)) => OtpkOfRequest(request)
  }

  lemma MemberTags()
    ensures WellFormedTag([0x82]) && TagOf([0x82]) == Tag(CONTEXT, 2)
    ensures WellFormedTag([0x80]) && TagOf([0x80]) == Tag(CONTEXT, 0)
    ensures WellFormedTag([0xA6]) && TagOf([0xA6]) == Tag(CONTEXT, 6)
    ensures WellFormedTag(OTPK) && TagOf(OTPK) == Tag(APPLICATION, 73)
  {
    assert OTPK[1..] == [0x49];
  }

  lemma OtpkOfContent(tid: Block, otpk: Point, sig: Signature)
    ensures OtpkOfRequest(IscContent(tid, otpk, sig)) == Some(otpk)
  {
    hide Encode, Group, ControlRef, ReadTlv;
    MemberTags();
    var r4 := Encode(SIGNATURE, sig);
    var r3 := Encode(OTPK, otpk) + r4;
    var r2 := Encode([0xA6], ControlRef(HOST_ID)) + r3;
    var r1 := Encode([0x80], tid) + r2;
    assert IscContent(tid, otpk, sig) == Encode([0x82], [0x01]) + r1;
    GroupEncoded([0x82], [0x01], r1, 2);
    GroupEncoded([0x80], tid, r2, 0);
    GroupEncoded([0xA6], ControlRef(HOST_ID), r3, 6);
    ReadEncoded(OTPK, otpk, r4);
  }

  /** Every built package carries the one-time key it was built with. */
  lemma PackageCarriesOtpk(c: Cipher.Suite, answer: Option<Signature>, s: Channel.State, input: Input)
    requires Build(c, answer, s, input).package.Some?
    ensures OtpkOfPackage(Build(c, answer, s, input).package.value) == Some(input.otpkDp)
  {
    hide IscContent, ProtectAll, Chunks, Wrapped, Group, Encode, OtpkOfRequest, LengthOctets;
    var jobs := Jobs(input.metadata, input.upp);
    JobsAreProtectable(input.metadata, input.upp);
    ProtectAllSizes(c, s, jobs);
    var values := ProtectAll(c, s, jobs).values;
    var request := IscContent(input.transactionId, input.otpkDp, answer.value);
    OtpkOfContent(input.transactionId, input.otpkDp, answer.value);
    assert AllFit(values[2..]);
    EnvelopeOpens(request, values);
  }

  lemma EnvelopeOpens(request: Bytes, values: seq<Bytes>)
    requires |request| <= MAX_LENGTH && |values| >= 2 && AllFit(values) && |values[0]| <= 2000 && |values[1]| <= 2000
    requires Enveloped(Encode(ISC, request), values).Some?
    ensures OtpkOfPackage(Enveloped(Encode(ISC, request), values).value) == OtpkOfRequest(request)
  {
    hide Wrapped, Group, Encode, OtpkOfRequest, LengthOctets;
    WrapperTags();
    assert AllFit(values[2..]);
    var content := Content(Encode(ISC, request), values);
    var g87, g88, g86 := Encode([TAG_87], values[0]), Encode([TAG_88], values[1]), Wrapped(TAG_86, values[2..]);
    var rest := Encode(FIRST_87, g87) + Encode(SEQUENCE_88, g88) + [] + Encode(SEQUENCE_86, g86);
    assert content == Encode(ISC, request) + rest;
    assert Encode(BPP, content) + [] == Encode(BPP, content);
    GroupEncoded(BPP, content, [], 54);
    GroupEncoded(ISC, request, rest, 35);
  }

  /** A card's own derivation (Annex G of GSMA SGP.22 v2.6): its one-time secret, the key it
      was sent, and AES, sixteen octets, the server's Host ID "euicc-rsp" and the card's own
      EID as sixteen octets. */
  function CardSession(k: Kdf.Agreement, otskEuicc: Bytes, smdpOtpk: Bytes, eid: Bytes): Option<Channel.State> {
    Kdf.SessionInit(k, otskEuicc, smdpOtpk,
                    [0x88, 0x10, 0x09, 0x65, 0x75, 0x69, 0x63, 0x63, 0x2D, 0x72, 0x73, 0x70, 0x10] + eid)
  }

  /** A bound package opens. The card reads the server's one-time key out of the package
      itself; if the one-time key it had sent belongs to the secret it holds, and its EID is
      the one the server learned, it derives a session in which the package recovers to
      exactly the profile, carrying exactly the metadata given at authentication, and ends
      in the very state the server stored. Nothing is assumed of the ciphers but that
      decryption undoes encryption, and of the agreement but that it commutes. */
  lemma BoundPackageOpens(
    env: Env, st: DpState, prepare: Bytes, upp: Bytes, otskDp: Bytes, answer: Option<Signature>,
    otskEuicc: Bytes, eid: Bytes)
    requires Cipher.Lawful(env.suite) && Kdf.Commutes(env.agreement)
    requires Bind(env, st, prepare, upp, otskDp, answer).answer.Yes?
    requires env.codec.prepareResponse(prepare).value.DownloadOk? ==>
               env.agreement.publicKey(otskEuicc) == Some(env.codec.prepareResponse(prepare).value.euiccOtpk)
    requires PackEid(st.eid) == Some(eid)
    ensures var o := Bind(env, st, prepare, upp, otskDp, answer);
            && var b := o.answer.value;
            && OtpkOfPackage(b).Some?
            && var card := CardSession(env.agreement, otskEuicc, OtpkOfPackage(b).value, eid);
               && card.Some?
               && Recover(env.suite, card.value, b) == Recovered(Yes(upp), o.next.bppSession)
               && Replay(env.suite, card.value, Scan(b).elements).plains == [CONFIGURE_ISDP, st.metadata] + Chunks(upp)
  {
    hide Build, Recover, Replay, Scan, Kdf.SessionInit, OtpkOfPackage, Chunks, IscTbs;
    var a := Agree(env, st, prepare, upp, otskDp).value;
    AgreedKeys(env, st, prepare, upp, otskDp);
    var input := BindInput(st, upp, a);
    assert Build(env.suite, answer, a.keys, input).package.Some?;
    PackageCarriesOtpk(env.suite, answer, a.keys, input);
    RoundTrip.BuiltIsRecovered(env.suite, answer, a.keys, input);
    RoundTrip.MetadataIsCarried(env.suite, answer, a.keys, input);
    Es9Exact.SharedInfoIs(eid);
    AgreementSymmetric(env.agreement, otskDp, otskEuicc, SharedInfo(HOST_ID, eid));
  }

  /** Matching one-time secrets start one session. */
  lemma AgreementSymmetric(k: Kdf.Agreement, a: Bytes, b: Bytes, info: Bytes)
    requires Kdf.Commutes(k)
    requires k.publicKey(a).Some? && k.publicKey(b).Some?
    ensures Kdf.SessionInit(k, a, k.publicKey(b).value, info) == Kdf.SessionInit(k, b, k.publicKey(a).value, info)
  {
  }

  lemma AgreedKeys(env: Env, st: DpState, prepare: Bytes, upp: Bytes, otsk: Bytes)
    requires Agree(env, st, prepare, upp, otsk).Yes? && PackEid(st.eid).Some?
    ensures var a := Agree(env, st, prepare, upp, otsk).value;
            && env.codec.prepareResponse(prepare).Some? && env.codec.prepareResponse(prepare).value.DownloadOk?
            && env.codec.prepareResponse(prepare).value.euiccOtpk == a.euiccOtpk
            && env.agreement.publicKey(otsk) == Some(a.otpkDp)
            && Kdf.SessionInit(env.agreement, otsk, a.euiccOtpk, SharedInfo(HOST_ID, PackEid(st.eid).value)) ==
               Some(a.keys)
  {
    hide Kdf.SessionInit;
  }

  /** The same over every run: initiate, then any calls, then a bind that is accepted. The
      card whose certificate the last accepted response carried -- holding the matching
      secret, with the EID that certificate names -- recovers the profile and that same
      call's metadata, and ends where the server does. */
  lemma RunOpens(
    env: Env, challenge: Bytes, info1: Bytes, tid: Block, sch: Block, own: Bytes, requested: Option<Bytes>,
    opening: Option<Signature>, calls: seq<Call>, b: nat, otskEuicc: Bytes, eid: Bytes)
    returns (i: nat)
    requires Cipher.Lawful(env.suite) && Kdf.Commutes(env.agreement)
    requires Initiate(env, challenge, info1, tid, sch, own, requested, opening).answer.Yes?
    requires var start := Opened(tid, challenge, sch);
             && AcceptedBind(env, start, calls, b)
             && (forall r :: env.codec.prepareResponse(calls[b].prepare) == Some(r) && r.DownloadOk? ==>
                   env.agreement.publicKey(otskEuicc) == Some(r.euiccOtpk))
             && PackEid(After(env, start, calls[..b]).eid) == Some(eid)
    ensures var start := Opened(tid, challenge, sch);
            && i < b && LastAccepted(env, start, calls[..b], i)
            && LearnedFrom(env, start, After(env, start, calls[..b]), calls[..b], i)
            && var package := At(env, start, calls, b).answer.value;
            && OtpkOfPackage(package).Some?
            && var card := CardSession(env.agreement, otskEuicc, OtpkOfPackage(package).value, eid);
               && card.Some?
               && Recover(env.suite, card.value, package) ==
                  Recovered(Yes(calls[b].upp), At(env, start, calls, b).next.bppSession)
               && Replay(env.suite, card.value, Scan(package).elements).plains ==
                  [CONFIGURE_ISDP, calls[i].metadata] + Chunks(calls[b].upp)
  {
    hide Agree, Build, Recover, Replay, Scan, Kdf.SessionInit, OtpkOfPackage, CardSession, VerifyClient, Chunks;
    hide PackEid;
    var start := Opened(tid, challenge, sch);
    i := PackageNeedsVerifiedCard(env, start, calls, b);
    var st := After(env, start, calls[..b]);
    assert calls[..b][i] == calls[i];
    BoundPackageOpens(env, st, calls[b].prepare, calls[b].upp, calls[b].otsk, calls[b].answer, otskEuicc, eid);
  }

  // ---- the assumptions can be met together ----

  const EID_0: Bytes := seq(32, i => 0x30)
  const EID_1: Bytes := seq(32, i => 0x31)

  /** An environment in which every response verifies and its octets are the card's
      certificate, of which [0] names one card and any other a second. */
  function SampleEnv(suite: Cipher.Suite, agreement: Kdf.Agreement): Env {
    Env(suite, agreement,
        Pki((c: Bytes, m: Bytes, s: Bytes) => Yes(()), (c: Bytes) => true, (c: Bytes) => true,
            (c: Bytes, d: Bytes) => true, (c: Bytes) => Some(if c == [0] then EID_0 else EID_1),
            Some([]), (k: Credential) => []),
        Codec((m: Bytes) => true, (m: Bytes) => Some(MetadataView(10, 0, 0)),
              (m: Bytes) => Some(ResponseOk(Zeros(16), Zeros(16), [], m, [], Zeros(64))),
              (m: Bytes) => Some(DownloadOk(Zeros(16), Zeros(65), [], Zeros(64))),
              (t: Block, e: Block, a: Bytes, s: Block) => [], (t: Block) => [],
              (t: Block, m: Bytes, s: Signature, k: Bytes, c: Bytes) => Some([]),
              (t: Block, m: Bytes, d: Bytes, s: Signature, c: Bytes) => Some([])))
  }

  const SAMPLE_START: DpState := Opened(Zeros(16), Zeros(16), Zeros(16))

  /** There is a run that RunOpens speaks about: lawful ciphers, a commuting agreement that
      tells keys apart, an accepted initiation, an accepted card, an accepted bind. */
  lemma AcceptedRunExists() returns (env: Env, calls: seq<Call>, eid: Bytes)
    ensures Cipher.Lawful(env.suite) && Kdf.Commutes(env.agreement)
    ensures exists a, b :: env.agreement.agree(a, a) != env.agreement.agree(b, b)
    ensures Initiate(env, Zeros(16), [0], Zeros(16), Zeros(16), [], None, Some(NO_SIGNATURE)).answer.Yes?
    ensures |calls| == 2
    ensures AcceptedBind(env, SAMPLE_START, calls, 1)
    ensures forall r :: env.codec.prepareResponse(calls[1].prepare) == Some(r) && r.DownloadOk? ==>
              env.agreement.publicKey(Zeros(65)) == Some(r.euiccOtpk)
    ensures PackEid(After(env, SAMPLE_START, calls[..1]).eid) == Some(eid)
  {
    hide *;
    var suite := Cipher.LawfulSuiteExists();
    var agreement := Kdf.CommutingAgreementExists();
    env := SampleEnv(suite, agreement);
    SampleFacts(suite, agreement);
    calls, eid := SampleCalls(suite, agreement);
  }

  lemma SampleCalls(suite: Cipher.Suite, agreement: Kdf.Agreement) returns (calls: seq<Call>, eid: Bytes)
    requires forall a :: agreement.publicKey(a) == Some(a)
    requires forall a, b :: agreement.agree(a, b).Some?
    ensures |calls| == 2 && calls[1] == SAMPLE_BIND
    ensures AcceptedBind(SampleEnv(suite, agreement), SAMPLE_START, calls, 1)
    ensures PackEid(After(SampleEnv(suite, agreement), SAMPLE_START, calls[..1]).eid) == Some(eid)
  {
    hide *;
    calls := [SAMPLE_FIRST, SAMPLE_BIND];
    assert calls[..1] == [SAMPLE_FIRST];
    eid := SampleRun(suite, agreement);
  }

  lemma SampleFacts(suite: Cipher.Suite, agreement: Kdf.Agreement)
    requires forall a :: agreement.publicKey(a) == Some(a)
    ensures var env := SampleEnv(suite, agreement);
            && env.suite == suite && env.agreement == agreement
            && Initiate(env, Zeros(16), [0], Zeros(16), Zeros(16), [], None, Some(NO_SIGNATURE)).answer.Yes?
            && SAMPLE_BIND.BindCall?
            && (forall r :: env.codec.prepareResponse(SAMPLE_BIND.prepare) == Some(r) && r.DownloadOk? ==>
                  agreement.publicKey(Zeros(65)) == Some(r.euiccOtpk))
  {
    assert agreement.publicKey(Zeros(65)) == Some(Zeros(65));
  }

  const SAMPLE_FIRST := AuthenticateCall([0], [0], Some(NO_SIGNATURE))
  const SAMPLE_BIND := BindCall([0], [0], Zeros(65), Some(NO_SIGNATURE))
  const SAMPLE_SECOND := AuthenticateCall([1], [0], Some(NO_SIGNATURE))

  /** The first two calls of the sample, in any run that starts with them. */
  lemma SampleRun(suite: Cipher.Suite, agreement: Kdf.Agreement) returns (eid: Bytes)
    requires forall a :: agreement.publicKey(a) == Some(a)
    requires forall a, b :: agreement.agree(a, b).Some?
    ensures var env, calls := SampleEnv(suite, agreement), [SAMPLE_FIRST, SAMPLE_BIND];
            && After(env, SAMPLE_START, [SAMPLE_FIRST]).eid == EID_0 && PackEid(EID_0) == Some(eid)
            && AcceptedBind(env, SAMPLE_START, calls, 1)
            && var end := After(env, SAMPLE_START, calls);
               && end.transactionId == Zeros(16) && end.serverChallenge == Zeros(16)
               && KeysOf(env, After(env, SAMPLE_START, [SAMPLE_FIRST]), SAMPLE_BIND, end.bppSession)
  {
    hide SampleEnv, KeysOf, After, At, Step, PackEid, Zeros;
    var env := SampleEnv(suite, agreement);
    SampleFirst(suite, agreement);
    var st := After(env, SAMPLE_START, [SAMPLE_FIRST]);
    SampleBindStep(suite, agreement, st);
    assert [SAMPLE_FIRST, SAMPLE_BIND] == [SAMPLE_FIRST] + [SAMPLE_BIND];
    RunExtends(env, SAMPLE_START, [SAMPLE_FIRST], SAMPLE_BIND);
    BindStoresKeys(env, st, SAMPLE_BIND);
    StepKeeps(env, st, SAMPLE_BIND);
    eid := SampleEid();
  }

  lemma SampleEid() returns (eid: Bytes)
    ensures PackEid(EID_0) == Some(eid)
  {
    eid := PackEid(EID_0).value;
  }

  lemma SampleFirst(suite: Cipher.Suite, agreement: Kdf.Agreement)
    ensures var st := After(SampleEnv(suite, agreement), SAMPLE_START, [SAMPLE_FIRST]);
            && st.eid == EID_0 && st.metadata == [0] && st.authenticated
            && st.transactionId == Zeros(16) && st.serverChallenge == Zeros(16)
  {
    hide Authenticate, SampleEnv, At;
    assert [SAMPLE_FIRST] == [] + [SAMPLE_FIRST];
    RunExtends(SampleEnv(suite, agreement), SAMPLE_START, [], SAMPLE_FIRST);
    SampleAuthenticates(suite, agreement, SAMPLE_START, [0]);
  }

  lemma SampleBindStep(suite: Cipher.Suite, agreement: Kdf.Agreement, st: DpState)
    requires forall a :: agreement.publicKey(a) == Some(a)
    requires forall a, b :: agreement.agree(a, b).Some?
    requires st.eid == EID_0 && st.metadata == [0] && st.authenticated && st.transactionId == Zeros(16)
    ensures SAMPLE_BIND.BindCall? && Step(SampleEnv(suite, agreement), st, SAMPLE_BIND).answer.Yes?
  {
    hide Bind, SampleEnv;
    SampleBinds(suite, agreement, st);
  }

  lemma SampleAuthenticates(suite: Cipher.Suite, agreement: Kdf.Agreement, st: DpState, resp: Bytes)
    requires resp != [] && st.transactionId == Zeros(16) && st.serverChallenge == Zeros(16)
    ensures var env := SampleEnv(suite, agreement);
            && var o := Authenticate(env, st, resp, [0], Some(NO_SIGNATURE));
               && o.answer.Yes?
               && o.next.eid == (if resp == [0] then EID_0 else EID_1)
               && o.next.metadata == [0] && o.next.authenticated && o.next.transactionId == Zeros(16)
               && o.next.serverChallenge == Zeros(16)
  {
  }

  lemma SampleBinds(suite: Cipher.Suite, agreement: Kdf.Agreement, st: DpState)
    requires forall a :: agreement.publicKey(a) == Some(a)
    requires forall a, b :: agreement.agree(a, b).Some?
    requires st.eid == EID_0 && st.metadata == [0] && st.authenticated && st.transactionId == Zeros(16)
    ensures Bind(SampleEnv(suite, agreement), st, [0], [0], Zeros(65), Some(NO_SIGNATURE)).answer.Yes?
  {
    hide Build, Kdf.Derive;
    var env := SampleEnv(suite, agreement);
    var a := Agree(env, st, [0], [0], Zeros(65)).value;
    SampleIsBuildable();
    RoundTrip.BuildSucceedsIff(suite, Some(NO_SIGNATURE), a.keys, BindInput(st, [0], a));
  }

  lemma SampleIsBuildable()
    ensures RoundTrip.Buildable(1, 1)
  {
    RoundTrip.ProfileSizeStep(1);
  }

  lemma SampleSecond(suite: Cipher.Suite, agreement: Kdf.Agreement, st: DpState)
    requires st.transactionId == Zeros(16) && st.serverChallenge == Zeros(16)
    ensures var o := Step(SampleEnv(suite, agreement), st, SAMPLE_SECOND);
            && SAMPLE_SECOND.AuthenticateCall? && o.answer.Yes?
            && o.next.eid != EID_0 && o.next.bppSession == st.bppSession
  {
    hide Authenticate, SampleEnv;
    SampleAuthenticates(suite, agreement, st, [1]);
    StepKeeps(SampleEnv(suite, agreement), st, SAMPLE_SECOND);
    assert EID_0[0] != EID_1[0];
  }

  /** Stored keys can outlive the EID they were derived over: authenticate one card, bind,
      authenticate another, and the session holds the first card's keys beside the second
      card's EID. */
  lemma KeysCanOutliveTheirEid() returns (env: Env, calls: seq<Call>)
    ensures |calls| == 3
    ensures Initiate(env, Zeros(16), [0], Zeros(16), Zeros(16), [], None, Some(NO_SIGNATURE)).answer.Yes?
    ensures LastBind(env, SAMPLE_START, calls, 1) && LastAccepted(env, SAMPLE_START, calls, 2)
    ensures var end := After(env, SAMPLE_START, calls);
            && KeysOf(env, After(env, SAMPLE_START, calls[..1]), calls[1], end.bppSession)
            && end.eid != After(env, SAMPLE_START, calls[..1]).eid
  {
    hide *;
    var suite := Cipher.LawfulSuiteExists();
    var agreement := Kdf.CommutingAgreementExists();
    env := SampleEnv(suite, agreement);
    SampleFacts(suite, agreement);
    calls := SampleThreeCalls(suite, agreement);
  }

  lemma SampleThreeCalls(suite: Cipher.Suite, agreement: Kdf.Agreement) returns (calls: seq<Call>)
    requires forall a :: agreement.publicKey(a) == Some(a)
    requires forall a, b :: agreement.agree(a, b).Some?
    ensures |calls| == 3
    ensures var env := SampleEnv(suite, agreement);
            && LastBind(env, SAMPLE_START, calls, 1) && LastAccepted(env, SAMPLE_START, calls, 2)
            && var end := After(env, SAMPLE_START, calls);
               && KeysOf(env, After(env, SAMPLE_START, calls[..1]), calls[1], end.bppSession)
               && end.eid != After(env, SAMPLE_START, calls[..1]).eid
  {
    hide *;
    var env := SampleEnv(suite, agreement);
    calls := [SAMPLE_FIRST, SAMPLE_BIND, SAMPLE_SECOND];
    assert calls[..1] == [SAMPLE_FIRST];
    var _ := SampleRun(suite, agreement);
    SampleSecond(suite, agreement, After(env, SAMPLE_START, [SAMPLE_FIRST, SAMPLE_BIND]));
    ThirdCall(env, SAMPLE_START, SAMPLE_FIRST, SAMPLE_BIND, SAMPLE_SECOND);
  }

  lemma ThirdCall(env: Env, start: DpState, first: Call, bind: Call, other: Call)
    requires AcceptedBind(env, start, [first, bind], 1) && other.AuthenticateCall?
    requires Step(env, After(env, start, [first, bind]), other).answer.Yes?
    ensures var calls := [first, bind, other];
            && LastBind(env, start, calls, 1) && LastAccepted(env, start, calls, 2)
            && After(env, start, calls) == Step(env, After(env, start, [first, bind]), other).next
  {
    hide Step, At, After;
    assert [first, bind, other] == [first, bind] + [other];
    RunExtends(env, start, [first, bind], other);
  }
}
