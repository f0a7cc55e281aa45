/** Signed reports from a card (the verifying half of src/rsp_es9.c): which received octets
    a signature is checked over, and when a report is believed. */
module Notifications {
  import opened Octets
  import opened DerLength
  import opened Tlv
  import opened Es9

  const PIR: Bytes := [0xBF, 0x37]
  const PIR_DATA: Bytes := [0xBF, 0x27]

  /** An error result's codes, each if it fits a long. */
  datatype FinalResult = Success | Failure(bppCommandId: Option<int>, errorReason: Option<int>) | Neither

  /** NotificationMetadata: the sequence number if it fits a long, the event bit string with
      its unused-bit count, and the ICCID if present. */
  datatype Metadata = Metadata(seqNumber: Option<int>, event: Bytes, unused: nat, iccid: Option<Bytes>)

  /** ProfileInstallationResult and OtherSignedNotification as decoded. */
  datatype InstallationResult = InstallationResult(
    transactionId: Bytes, metadata: Metadata, final: FinalResult, signature: Bytes)
  datatype OtherNotification = OtherNotification(metadata: Metadata, signature: Bytes)

  datatype Decoders = Decoders(
    installation: Bytes -> Option<InstallationResult>,
    other: Bytes -> Option<OtherNotification>)

  // ---- which octets ----

  /** The message euiccSignPIR is checked over: the BF27 TLV standing right after the BF37
      header, as received. */
  function SignedData(pir: Bytes): Option<Bytes> {
    match FindTlv(pir, 0, PIR)
    case None => None
    case Some(outer) =>
      match FindTlv(pir, outer.HeaderSize(), PIR_DATA)
      case None => None
      case Some(inner) => Some(pir[outer.HeaderSize()..outer.HeaderSize() + inner.Size()])
  }

  /** `data` is a BF27 TLV with a definite length, minimal or not, and stands in `pir`
      between a BF37 header and `rest`; n is the length that header announces. */
  ghost predicate StandsIn(pir: Bytes, data: Bytes, header: Bytes, n: nat, length: Bytes, content: Bytes, rest: Bytes) {
    && pir == PIR + header + data + rest
    && data == PIR_DATA + length + content
    && IsDefiniteForm(header, n) && |PIR + header| + n <= |pir|
    && IsDefiniteForm(length, |content|)
  }

  /** The signed data is a contiguous stretch of the received octets, the BF27 TLV right
      after the BF37 header, its length field as received; nothing is re-encoded. */
  lemma SignedDataIsReceived(pir: Bytes, data: Bytes)
    ensures SignedData(pir) == Some(data) <==>
            exists header, n, length, content, rest :: StandsIn(pir, data, header, n, length, content, rest)
  {
    hide StandsIn, SignedData;
    if SignedData(pir) == Some(data) {
      var header, n, length, content, rest := SignedDataStands(pir, data);
    } else {
      forall header, n, length, content, rest | StandsIn(pir, data, header, n, length, content, rest)
        ensures false
      {
        StandingIsSigned(pir, data, header, n, length, content, rest);
      }
    }
  }

  lemma StandsInIs(pir: Bytes, data: Bytes, header: Bytes, n: nat, length: Bytes, content: Bytes, rest: Bytes)
    ensures StandsIn(pir, data, header, n, length, content, rest) <==>
            && pir == [0xBF, 0x37] + header + data + rest
            && data == [0xBF, 0x27] + length + content
            && IsDefiniteForm(header, n) && 2 + |header| + n <= |pir|
            && IsDefiniteForm(length, |content|)
  {
  }

  lemma SignedDataStands(pir: Bytes, data: Bytes)
    returns (header: Bytes, n: nat, length: Bytes, content: Bytes, rest: Bytes)
    requires SignedData(pir) == Some(data)
    ensures StandsIn(pir, data, header, n, length, content, rest)
  {
    hide FindTlv, IsDefiniteForm;
    assert pir[0..] == pir;
    var outer, after;
    header, outer, after := FoundTlv(pir, 0, PIR);
    n := |outer|;
    var h := |PIR + header|;
    assert pir == (PIR + header) + (outer + after);
    assert pir[h..] == outer + after;
    length, content, rest := FoundTlv(pir, h, PIR_DATA);
    SignedStretch(pir, h, data, PIR_DATA + length + content, rest);
    assert pir == (PIR + header) + (data + rest);
  }

  lemma SignedStretch(pir: Bytes, h: nat, data: Bytes, found: Bytes, rest: Bytes)
    requires h <= |pir| && pir[h..] == found + rest
    requires h + |found| <= |pir| && data == pir[h..h + |found|]
    ensures data == found
  {
    assert pir[h..h + |found|] == pir[h..][..|found|];
  }

  lemma StandingIsSigned(pir: Bytes, data: Bytes, header: Bytes, n: nat, length: Bytes, content: Bytes, rest: Bytes)
    requires StandsIn(pir, data, header, n, length, content, rest)
    ensures SignedData(pir) == Some(data)
  {
    hide FindTlv, IsDefiniteForm;
    PirTags();
    assert [] + PIR + header + (data + rest) == pir;
    FindsWritten([], PIR, header, data + rest, n);
    assert (PIR + header) + PIR_DATA + length + (content + rest) == pir;
    FindsWritten(PIR + header, PIR_DATA, length, content + rest, |content|);
    var h := |PIR + header|;
    assert pir[h..h + |data|] == data;
  }

  lemma PirTags()
    ensures WellFormedTag(PIR) && WellFormedTag(PIR_DATA)
  {
  }

  lemma FoundTlv(buf: Bytes, off: nat, want: Bytes) returns (length: Bytes, content: Bytes, rest: Bytes)
    requires FindTlv(buf, off, want).Some?
    ensures off <= |buf| && buf[off..] == want + length + content + rest
    ensures IsDefiniteForm(length, |content|)
    ensures FindTlv(buf, off, want).value.HeaderSize() == |want + length|
    ensures FindTlv(buf, off, want).value.Size() == |want + length + content|
  {
    hide ReadTlv, IsDefiniteForm;
    var t, p := FindTlv(buf, off, want).value, buf[off..];
    ReadIsSpelled(p);
    length, content, rest := p[t.tagSize..t.HeaderSize()], Value(p, t), p[t.Size()..];
    assert p[..t.tagSize] == buf[off..off + t.tagSize] == want;
    assert p == p[..t.Size()] + rest;
  }

  /** A tag, any definite length field and enough octets after it are found, wherever they
      stand. */
  lemma FindsWritten(before: Bytes, tag: Bytes, length: Bytes, after: Bytes, n: nat)
    requires WellFormedTag(tag) && IsDefiniteForm(length, n) && n <= |after|
    ensures FindTlv(before + tag + length + after, |before|, tag) ==
            Some(Tlv(TagOf(tag), |tag|, |length|, n))
  {
    var buf := before + tag + length + after;
    var p := tag + (length + after);
    assert buf[|before|..] == p;
    FetchWellFormedTag(tag, length + after);
    assert p[|tag|..] == length + after;
    assert (length + after)[..|length|] == length;
    FetchLengthReadsDefiniteForms(length + after, n, |length|);
    assert buf[|before|..|before| + |tag|] == tag;
  }

  // ---- rsp_dp_verify_installation_result ----

  function Installation(env: Env, d: Decoders, st: DpState, pir: Bytes): Answer<FinalResult> {
    if pir == [] || !st.authenticated then Unreached
    else
      match d.installation(pir)
      case None => Unreached
      case Some(r) =>
        if r.transactionId != st.transactionId then No
        else if |r.signature| != 64 then Unreached
        else
          match SignedData(pir)
          case None => Unreached
          case Some(data) =>
            match env.pki.verify(st.cert, data, r.signature)
            case No => No
            case Unreached => Unreached
            case Yes(_) => if r.final.Neither? then Unreached else Yes(r.final)
  }

  /** find_tlv for the caller that only wants the bounds. */
  method FindHeader(buf: Bytes, off: nat, want: Bytes) returns (ok: bool, header: nat, size: nat)
    ensures ok == FindTlv(buf, off, want).Some?
    ensures ok ==> header == FindTlv(buf, off, want).value.HeaderSize() && size == FindTlv(buf, off, want).value.Size()
  {
    header, size := 0, 0;
    if off > |buf| {
      return false, header, size;
    }
    var found := ReadTlv(buf[off..]);
    if found.None? {
      return false, header, size;
    }
    var t := found.value;
    if t.tagSize != |want| || buf[off..off + t.tagSize] != want {
      return false, header, size;
    }
    return true, t.HeaderSize(), t.Size();
  }

  /** rsp_dp_verify_installation_result. A code that does not fit a long is not written: the
      caller's variable keeps what it held, and the answer is 0 all the same. */
  method VerifyInstallationResult(env: Env, d: Decoders, s: DpSession, pir: Bytes, heldId: int, heldReason: int)
    returns (ret: int, installed: bool, bppCommandId: int, errorReason: int)
    ensures var a := Installation(env, d, s.Value(), pir);
            && ret == a.Code()
            && (ret == 0 ==> (installed <==> a.value == Success))
            && (ret == 0 && !installed ==>
                  && a.value.Failure?
                  && bppCommandId == (match a.value.bppCommandId case Some(v) => v case None => heldId)
                  && errorReason == (match a.value.errorReason case Some(v) => v case None => heldReason))
            && (ret != 0 || installed ==> bppCommandId == heldId && errorReason == heldReason)
  {
    hide FindTlv, ReadTlv;
    ret, installed, bppCommandId, errorReason := -2, false, heldId, heldReason;
    if pir == [] || !s.authenticated {
      return;
    }
    var decoded := d.installation(pir);
    if decoded.None? {
      return;
    }
    var r := decoded.value;
    if r.transactionId != s.transactionId {
      ret := -1;
      return;
    }
    if |r.signature| != 64 {
      return;
    }
    var ok, header, size := FindHeader(pir, 0, PIR);
    if !ok {
      return;
    }
    var found, _, dataSize := FindHeader(pir, header, PIR_DATA);
    ok := found;
    if !ok {
      return;
    }
    FindBound(pir, header);
    var vr := env.pki.verify(s.cert, pir[header..header + dataSize], r.signature);
    if !vr.Yes? {
      ret := vr.Code();
      return;
    }
    match r.final
    case Success =>
      ret, installed := 0, true;
    case Failure(command, reason) =>
      ret := 0;
      if command.Some? {
        bppCommandId := command.value;
      }
      if reason.Some? {
        errorReason := reason.value;
      }
    case Neither =>
  }

  lemma FindBound(pir: Bytes, off: nat)
    ensures FindTlv(pir, off, PIR_DATA).Some? ==> off + FindTlv(pir, off, PIR_DATA).value.Size() <= |pir|
  {
  }

  /** A report is believed exactly when the card of this session signed, for this session's
      transaction, the data standing in the received octets; and it is refused with -1
      exactly for another transaction or a signature that does not verify. */
  lemma BelievedIff(env: Env, d: Decoders, st: DpState, pir: Bytes, f: FinalResult)
    ensures Installation(env, d, st, pir) == Yes(f) <==>
            && pir != [] && st.authenticated && d.installation(pir).Some?
            && var r := d.installation(pir).value;
               && r.transactionId == st.transactionId && |r.signature| == 64 && r.final == f && !f.Neither?
               && exists data :: SignedData(pir) == Some(data) && env.pki.verify(st.cert, data, r.signature).Yes?
    ensures Installation(env, d, st, pir) == No <==>
            && pir != [] && st.authenticated && d.installation(pir).Some?
            && var r := d.installation(pir).value;
               || r.transactionId != st.transactionId
               || (|r.signature| == 64 &&
                   exists data :: SignedData(pir) == Some(data) && env.pki.verify(st.cert, data, r.signature) == No)
  {
    hide SignedData;
    if SignedData(pir).Some? {
      assert SignedData(pir) == Some(SignedData(pir).value);
    }
  }

  // ---- the other notification: a positional walk ----

  /** n TLVs in a row as received, from `off`, within `end`: step_tlv called n times. */
  function Walk(buf: Bytes, end: nat, off: nat, n: nat): (r: Option<seq<Bytes>>)
    requires end <= |buf|
    ensures r.Some? ==> |r.value| == n
    decreases n
  {
    if n == 0 then Some([])
    else
      match StepTlv(buf, end, off)
      case None => None
      case Some(t) =>
        match Walk(buf, end, off + t.Size(), n - 1)
        case None => None
        case Some(rest) => Some([buf[off..off + t.Size()]] + rest)
  }

  /** The four members of an OtherSignedNotification: to-be-signed data, its signature, the
      card's certificate, the EUM's. */
  function Members(osn: Bytes): (r: Option<seq<Bytes>>)
    ensures r.Some? ==> |r.value| == 4
  {
    match StepTlv(osn, |osn|, 0)
    case None => None
    case Some(outer) => Walk(osn, outer.Size(), outer.HeaderSize(), 4)
  }

  /** Exactly one TLV, header and content, and nothing else. */
  ghost predicate WholeTlv(p: Bytes) {
    exists tag, length, content :: Spells(p, tag, length, content)
  }

  lemma {:induction false} WalkIsAdjacent(buf: Bytes, end: nat, off: nat, n: nat)
    requires off <= end <= |buf| && Walk(buf, end, off, n).Some?
    ensures var m := Walk(buf, end, off, n).value;
            && (forall i :: 0 <= i < n ==> WholeTlv(m[i]))
            && off + |Concat(m)| <= end && buf[off..off + |Concat(m)|] == Concat(m)
    decreases n
  {
    hide ReadTlv, StepTlv, WholeTlv;
    if n > 0 {
      StepIsWhole(buf, end, off);
      var next := off + StepTlv(buf, end, off).value.Size();
      WalkIsAdjacent(buf, end, next, n - 1);
      var m, rest := Walk(buf, end, off, n).value, Walk(buf, end, next, n - 1).value;
      assert m[1..] == rest && m[0] == buf[off..next];
      assert forall i :: 1 <= i < n ==> m[i] == rest[i - 1];
      assert buf[off..next] + buf[next..next + |Concat(rest)|] == buf[off..next + |Concat(rest)|];
    }
  }

  lemma SpelledIsWhole(p: Bytes, tag: Bytes, length: Bytes, content: Bytes)
    requires Spells(p, tag, length, content)
    ensures WholeTlv(p)
  {
  }

  lemma StepIsWhole(buf: Bytes, end: nat, off: nat)
    requires end <= |buf| && StepTlv(buf, end, off).Some?
    ensures var t := StepTlv(buf, end, off).value;
            off + t.Size() <= end && WholeTlv(buf[off..off + t.Size()])
  {
    hide ReadTlv;
    var t, p := StepTlv(buf, end, off).value, buf[off..end];
    ReadIsSpelled(p);
    SliceOfSlice(buf, off, end, 0, t.Size());
    assert p[0..t.Size()] == p[..t.Size()];
    var tag: Bytes, length: Bytes, content: Bytes := p[..t.tagSize], p[t.tagSize..t.HeaderSize()], Value(p, t);
    var whole := buf[off..off + t.Size()];
    assert Spells(whole, tag, length, content);
    SpelledIsWhole(whole, tag, length, content);
  }

  lemma StepReads(buf: Bytes, end: nat, off: nat, t: Bytes, rest: Bytes)
    requires off <= end <= |buf| && WholeTlv(t) && buf[off..end] == t + rest
    ensures StepIs(buf, end, off, t) && off + |t| <= end && buf[off + |t|..end] == rest
  {
    hide ReadTlv;
    var tag, length, content :| Spells(t, tag, length, content);
    SpelledIsRead(t, tag, length, content, rest);
    SliceOfSlice(buf, off, end, |t|, end - off);
    SliceOfSlice(buf, off, end, 0, |t|);
  }

  /** These four, each exactly one TLV, stand side by side at the front of the content of the
      TLV that `osn` starts with. */
  ghost predicate Carries(osn: Bytes, tbs: Bytes, signature: Bytes, euicc: Bytes, eum: Bytes) {
    && WholeTlv(tbs) && WholeTlv(signature) && WholeTlv(euicc) && WholeTlv(eum)
    && exists outer, tag, length, rest, after ::
         osn == outer + after && Spells(outer, tag, length, tbs + signature + euicc + eum + rest)
  }

  /** The walk finds four members exactly where they stand, in order -- although the
      to-be-signed data and both certificates are SEQUENCEs, and the last two share a tag. */
  lemma MembersIff(osn: Bytes, tbs: Bytes, signature: Bytes, euicc: Bytes, eum: Bytes)
    ensures Members(osn) == Some([tbs, signature, euicc, eum]) <==> Carries(osn, tbs, signature, euicc, eum)
  {
    hide Members, Carries;
    if Members(osn) == Some([tbs, signature, euicc, eum]) {
      MembersStand(osn, tbs, signature, euicc, eum);
    }
    if Carries(osn, tbs, signature, euicc, eum) {
      StandingAreMembers(osn, tbs, signature, euicc, eum);
    }
  }

  lemma MembersStand(osn: Bytes, tbs: Bytes, signature: Bytes, euicc: Bytes, eum: Bytes)
    requires Members(osn) == Some([tbs, signature, euicc, eum])
    ensures Carries(osn, tbs, signature, euicc, eum)
  {
    hide WholeTlv, Walk, ReadTlv, Spells;
    assert osn[0..|osn|] == osn;
    var outer := StepTlv(osn, |osn|, 0).value;
    var h, e := outer.HeaderSize(), outer.Size();
    WalkIsAdjacent(osn, e, h, 4);
    var m := [tbs, signature, euicc, eum];
    assert m[0] == tbs && m[1] == signature && m[2] == euicc && m[3] == eum;
    ConcatFour(m);
    ReadIsSpelled(osn);
    var rest := osn[h + |Concat(m)|..e];
    Rejoin(osn, h, h + |Concat(m)|, e);
    Rejoin(osn, 0, e, |osn|);
  }

  lemma StandingAreMembers(osn: Bytes, tbs: Bytes, signature: Bytes, euicc: Bytes, eum: Bytes)
    requires Carries(osn, tbs, signature, euicc, eum)
    ensures Members(osn) == Some([tbs, signature, euicc, eum])
  {
    hide WholeTlv, Walk, ReadTlv, StepTlv;
    var outer, tag, length, rest, after :|
      osn == outer + after && Spells(outer, tag, length, tbs + signature + euicc + eum + rest);
    var content := tbs + signature + euicc + eum + rest;
    SpelledIsRead(outer, tag, length, content, after);
    StepAtFront(osn);
    assert osn[|tag| + |length|..|outer|] == content;
    FourReads(osn, |outer|, |tag| + |length|, tbs, signature, euicc, eum, rest);
    FourSteps(osn, |outer|, |tag| + |length|, tbs, signature, euicc, eum);
  }

  lemma FourReads(buf: Bytes, end: nat, off: nat, a: Bytes, b: Bytes, c: Bytes, d: Bytes, rest: Bytes)
    requires off <= end <= |buf| && buf[off..end] == a + b + c + d + rest
    requires WholeTlv(a) && WholeTlv(b) && WholeTlv(c) && WholeTlv(d)
    ensures StepIs(buf, end, off, a) && StepIs(buf, end, off + |a|, b)
    ensures StepIs(buf, end, off + |a| + |b|, c) && StepIs(buf, end, off + |a| + |b| + |c|, d)
  {
    hide WholeTlv, StepTlv, StepIs;
    assert a + b + c + d + rest == a + (b + (c + (d + rest)));
    StepReads(buf, end, off, a, b + (c + (d + rest)));
    StepReads(buf, end, off + |a|, b, c + (d + rest));
    StepReads(buf, end, off + |a| + |b|, c, d + rest);
    StepReads(buf, end, off + |a| + |b| + |c|, d, rest);
  }

  lemma Rejoin(s: Bytes, i: nat, j: nat, k: nat)
    requires i <= j <= k <= |s|
    ensures s[i..k] == s[i..j] + s[j..k]
    ensures s[0..|s|] == s
  {
  }

  lemma StepAtFront(osn: Bytes)
    ensures osn != [] ==> StepTlv(osn, |osn|, 0) == ReadTlv(osn)
  {
    assert osn[0..|osn|] == osn;
  }

  lemma FourSteps(buf: Bytes, end: nat, off: nat, a: Bytes, b: Bytes, c: Bytes, d: Bytes)
    requires off <= end <= |buf|
    requires StepIs(buf, end, off, a) && StepIs(buf, end, off + |a|, b)
    requires StepIs(buf, end, off + |a| + |b|, c) && StepIs(buf, end, off + |a| + |b| + |c|, d)
    ensures Walk(buf, end, off, 4) == Some([a, b, c, d])
  {
    hide StepTlv;
    WalkStep(buf, end, off, 4);
    WalkStep(buf, end, off + |a|, 3);
    WalkStep(buf, end, off + |a| + |b|, 2);
    WalkStep(buf, end, off + |a| + |b| + |c|, 1);
    assert Walk(buf, end, off + |a| + |b| + |c| + |d|, 0) == Some([]);
    assert [a] + ([b] + ([c] + ([d] + []))) == [a, b, c, d];
  }

  predicate StepIs(buf: Bytes, end: nat, off: nat, t: Bytes)
    requires end <= |buf|
  {
    && StepTlv(buf, end, off).Some? && StepTlv(buf, end, off).value.Size() == |t|
    && off + |t| <= |buf| && buf[off..off + |t|] == t
  }

  // ---- the reported operation ----

  predicate BitSet(event: Bytes, i: nat)
    requires i < 8 * |event|
  {
    event[i / 8] / Pow2(7 - i % 8) % 2 == 1
  }

  /** How many leading bits of the string are not declared unused. */
  function UsedBits(event: Bytes, unused: nat): nat {
    if event == [] then 0
    else if unused >= 8 then 8 * (|event| - 1)
    else 8 * |event| - unused
  }

  /** Bit i is set, and no other used bit is. */
  ghost predicate OnlyBit(event: Bytes, unused: nat, i: nat) {
    && i < UsedBits(event, unused) && BitSet(event, i)
    && forall k :: 0 <= k < UsedBits(event, unused) && BitSet(event, k) ==> k == i
  }

  /** The operation reported: the one bit that is set, -1 when none or several are. */
  ghost function Operation(event: Bytes, unused: nat): (r: int)
    ensures r >= 0 ==> OnlyBit(event, unused, r)
    ensures r == -1 <==> forall i: nat :: !OnlyBit(event, unused, i)
    ensures r >= -1
  {
    if exists i: nat :: OnlyBit(event, unused, i) then
      var i: nat :| OnlyBit(event, unused, i);
      i
    else -1
  }

  /** The operation, in masks: the i-th bit counts from 0x80 of the first octet, the bits the
      last octet declares unused are not looked at, and no other may be set. */
  lemma OperationIff(event: Bytes, unused: nat, i: nat)
    ensures Operation(event, unused) == i <==>
            && event != [] && i < 8 * |event| - (if unused > 8 then 8 else unused)
            && event[i / 8] / [0x80, 0x40, 0x20, 0x10, 0x08, 0x04, 0x02, 0x01][i % 8] % 2 == 1
            && forall k :: 0 <= k < 8 * |event| - (if unused > 8 then 8 else unused) && k != i ==>
                 event[k / 8] / [0x80, 0x40, 0x20, 0x10, 0x08, 0x04, 0x02, 0x01][k % 8] % 2 == 0
  {
    hide BitSet;
    forall k: nat | k < 8 * |event|
      ensures BitSet(event, k) <==>
              event[k / 8] / [0x80, 0x40, 0x20, 0x10, 0x08, 0x04, 0x02, 0x01][k % 8] % 2 == 1
    {
      BitSetIs(event, k);
    }
    if event != [] {
      assert UsedBits(event, unused) == 8 * |event| - (if unused > 8 then 8 else unused);
    }
    assert Operation(event, unused) == i <==> OnlyBit(event, unused, i);
  }

  lemma BitSetIs(event: Bytes, k: nat)
    requires k < 8 * |event|
    ensures BitSet(event, k) <==>
            event[k / 8] / [0x80, 0x40, 0x20, 0x10, 0x08, 0x04, 0x02, 0x01][k % 8] % 2 == 1
  {
    var b := k % 8;
    assert Pow2(3) == 8 && Pow2(5) == 32 && Pow2(7) == 128;
    assert Pow2(0) == 1 && Pow2(1) == 2 && Pow2(2) == 4 && Pow2(4) == 16 && Pow2(6) == 64;
    assert Pow2(7 - b) == [0x80, 0x40, 0x20, 0x10, 0x08, 0x04, 0x02, 0x01][b];
  }

  /** notification_meta's bit scan: the position of the one bit that is set, or -1 when none
      or several are. */
  method EventBit(event: Bytes, unused: nat) returns (found: int)
    ensures found == Operation(event, unused)
  {
    hide BitSet;
    found := -1;
    var octet := 0;
    while octet < |event|
      invariant 0 <= octet <= |event|
      invariant -1 <= found < Reach(event, unused, octet, 0)
      invariant OnlyUpTo(event, unused, found, Reach(event, unused, octet, 0))
    {
      var bit := 0;
      while bit < 8
        invariant 0 <= bit <= 8
        invariant -1 <= found < Reach(event, unused, octet, bit)
        invariant OnlyUpTo(event, unused, found, Reach(event, unused, octet, bit))
        invariant octet + 1 == |event| && bit > 0 ==> bit <= 8 - unused
      {
        if octet + 1 == |event| && bit >= 8 - unused {
          break;
        }
        if BitAt(event[octet], bit) {
          BitAtIs(event, octet, bit);
          if found >= 0 {
            assert BitSet(event, found) && BitSet(event, octet * 8 + bit) && found != octet * 8 + bit;
            return -1;
          }
          found := octet * 8 + bit;
        } else {
          BitAtIs(event, octet, bit);
        }
        bit := bit + 1;
      }
      octet := octet + 1;
    }
    OperationIs(event, unused, found);
  }

  lemma OperationIs(event: Bytes, unused: nat, found: int)
    requires -1 <= found < UsedBits(event, unused)
    requires OnlyUpTo(event, unused, found, UsedBits(event, unused))
    ensures Operation(event, unused) == found
  {
    hide BitSet;
    if found >= 0 {
      assert OnlyBit(event, unused, found);
    }
  }

  /** How many used bits the scan has passed at this point. */
  function Reach(event: Bytes, unused: nat, octet: nat, bit: nat): nat {
    var passed, used := 8 * octet + bit, UsedBits(event, unused);
    if passed <= used then passed else used
  }

  /** Of the first n bits, `found` is the only one set; none is when it is -1. */
  ghost predicate OnlyUpTo(event: Bytes, unused: nat, found: int, n: nat)
    requires n <= 8 * |event| && found < n
  {
    && (found >= 0 ==> BitSet(event, found))
    && forall k :: 0 <= k < n && BitSet(event, k) ==> k == found
  }

  /** `octet & (0x80 >> bit)`. */
  predicate BitAt(octet: byte, bit: nat)
    requires bit < 8
  {
    octet / Pow2(7 - bit) % 2 == 1
  }

  lemma BitAtIs(event: Bytes, octet: nat, bit: nat)
    requires octet < |event| && bit < 8
    ensures BitAt(event[octet], bit) == BitSet(event, octet * 8 + bit)
  {
  }

  /** What a believed notification reports. */
  datatype Report = Report(seqNumber: int, operation: int, iccid: Option<Bytes>)

  /** notification_meta's refusals: a sequence number wider than a long, an ICCID that is
      not ten octets. */
  ghost function Describe(m: Metadata): Option<Report> {
    if m.seqNumber.None? || (m.iccid.Some? && |m.iccid.value| != 10) then None
    else Some(Report(m.seqNumber.value, Operation(m.event, m.unused), m.iccid))
  }

  lemma DescribeIff(m: Metadata, report: Report)
    ensures Describe(m) == Some(report) <==>
            && m.seqNumber == Some(report.seqNumber)
            && report.operation == Operation(m.event, m.unused)
            && report.iccid == m.iccid && (m.iccid.Some? ==> |m.iccid.value| == 10)
  {
    hide Operation;
  }

  /** notification_meta. */
  method DescribeMetadata(m: Metadata) returns (ok: bool, report: Report)
    ensures ok == Describe(m).Some?
    ensures ok ==> report == Describe(m).value
  {
    report := Report(0, -1, None);
    if m.seqNumber.None? {
      return false, report;
    }
    var found := EventBit(m.event, m.unused);
    if m.iccid.Some? && |m.iccid.value| != 10 {
      return false, report;
    }
    return true, Report(m.seqNumber.value, found, m.iccid);
  }

  /** verify_other_notification; `cert` is the caller's stored certificate, if any. */
  ghost function Other(env: Env, d: Decoders, cert: Bytes, osn: Bytes): Answer<Report> {
    match d.other(osn)
    case None => Unreached
    case Some(o) =>
      if |o.signature| != 64 then Unreached
      else
        match Members(osn)
        case None => Unreached
        case Some(m) =>
          var tbs, euicc, eum := m[0], m[2], m[3];
          if cert != [] && cert != euicc then No
          else if !env.pki.parses(eum) || !env.pki.parses(euicc) then Unreached
          else if !env.pki.chainsToCi(eum) || !env.pki.chains(euicc, eum) then No
          else
            match env.pki.verify(euicc, tbs, o.signature)
            case No => No
            case Unreached => Unreached
            case Yes(_) =>
              match Describe(o.metadata)
              case None => Unreached
              case Some(report) => Yes(report)
  }

  /** A notification is believed exactly when the received octets carry, in place, something
      signed and two certificates such that any stored certificate is the very one carried,
      the certificates chain to the CI, and the signature verifies over the first member as
      it came in. It is refused with -1 exactly when the carried certificate is another than
      the stored one, does not chain, or does not verify the first member. */
  lemma OtherIff(env: Env, d: Decoders, cert: Bytes, osn: Bytes, report: Report)
    ensures Other(env, d, cert, osn) == Yes(report) <==>
            && d.other(osn).Some? && |d.other(osn).value.signature| == 64
            && (var m := d.other(osn).value.metadata;
                && m.seqNumber == Some(report.seqNumber)
                && report.operation == Operation(m.event, m.unused)
                && report.iccid == m.iccid && (m.iccid.Some? ==> |m.iccid.value| == 10))
            && exists tbs, signature, euicc, eum :: Carries(osn, tbs, signature, euicc, eum)
                 && (cert == [] || cert == euicc)
                 && env.pki.parses(eum) && env.pki.parses(euicc)
                 && env.pki.chainsToCi(eum) && env.pki.chains(euicc, eum)
                 && env.pki.verify(euicc, tbs, d.other(osn).value.signature).Yes?
    ensures Other(env, d, cert, osn) == No <==>
            && d.other(osn).Some? && |d.other(osn).value.signature| == 64
            && exists tbs, signature, euicc, eum :: Carries(osn, tbs, signature, euicc, eum)
                 && (|| (cert != [] && cert != euicc)
                     || (env.pki.parses(eum) && env.pki.parses(euicc) &&
                         (|| !env.pki.chainsToCi(eum)
                          || !env.pki.chains(euicc, eum)
                          || env.pki.verify(euicc, tbs, d.other(osn).value.signature) == No)))
  {
    hide Members, Carries, Describe;
    if d.other(osn).Some? {
      DescribeIff(d.other(osn).value.metadata, report);
    }
    if Members(osn).Some? {
      var m := Members(osn).value;
      assert m == [m[0], m[1], m[2], m[3]];
      MembersIff(osn, m[0], m[1], m[2], m[3]);
    }
    forall tbs, signature, euicc, eum | Carries(osn, tbs, signature, euicc, eum)
      ensures Members(osn) == Some([tbs, signature, euicc, eum])
    {
      MembersIff(osn, tbs, signature, euicc, eum);
    }
  }

  lemma ConcatFour(m: seq<Bytes>)
    requires |m| == 4
    ensures Concat(m) == m[0] + m[1] + m[2] + m[3]
  {
    assert m[1..][1..] == m[2..] && m[2..][1..] == m[3..] && m[3..][1..] == [];
    assert Concat(m[3..]) == m[3] + Concat([]);
    assert Concat(m[2..]) == m[2] + Concat(m[3..]);
    assert Concat(m[1..]) == m[1] + Concat(m[2..]);
  }

  /** step_tlv: the TLV at `off` whole, where its value starts, and the offset past it. */
  method Step(buf: Bytes, end: nat, off: nat) returns (ok: bool, whole: Bytes, value: nat, next: nat)
    requires end <= |buf|
    ensures ok == StepTlv(buf, end, off).Some?
    ensures ok ==>
              var t := StepTlv(buf, end, off).value;
              value == off + t.HeaderSize() && next == off + t.Size() <= end && whole == buf[off..next]
  {
    ok, whole, value, next := false, [], off, off;
    if off >= end {
      return;
    }
    var found := ReadTlv(buf[off..end]);
    if found.Some? {
      ok, value, next := true, off + found.value.HeaderSize(), off + found.value.Size();
      whole := buf[off..next];
    }
  }

  method VerifyOtherNotification(env: Env, d: Decoders, cert: Bytes, osn: Bytes) returns (ret: int, report: Report)
    ensures var a := Other(env, d, cert, osn);
            ret == a.Code() && (ret == 0 ==> report == a.value)
  {
    hide StepTlv;
    ret, report := -2, Report(0, -1, None);
    var o := d.other(osn);
    if o.None? || |o.value.signature| != 64 {
      return;
    }
    var ok, whole, off, end := Step(osn, |osn|, 0);
    if !ok {
      return;
    }
    var tbs, signature, euicc, eum;
    ok, tbs, signature, euicc, eum := FourMembers(osn, end, off);
    if !ok {
      return;
    }
    if cert != [] && cert != euicc {
      ret := -1;
      return;
    }
    if !env.pki.parses(eum) || !env.pki.parses(euicc) {
      return;
    }
    if !env.pki.chainsToCi(eum) {
      ret := -1;
      return;
    }
    if !env.pki.chains(euicc, eum) {
      ret := -1;
      return;
    }
    var vr := env.pki.verify(euicc, tbs, o.value.signature);
    if !vr.Yes? {
      ret := vr.Code();
      return;
    }
    ok, report := DescribeMetadata(o.value.metadata);
    if ok {
      ret := 0;
    }
  }

  /** The four calls of step_tlv inside the outer value. */
  method FourMembers(osn: Bytes, end: nat, start: nat)
    returns (ok: bool, tbs: Bytes, signature: Bytes, euicc: Bytes, eum: Bytes)
    requires end <= |osn|
    ensures ok == Walk(osn, end, start, 4).Some?
    ensures ok ==> Walk(osn, end, start, 4) == Some([tbs, signature, euicc, eum])
  {
    hide StepTlv;
    tbs, signature, euicc, eum := [], [], [], [];
    var off, value := start, 0;
    ok, tbs, value, off := Step(osn, end, off);
    if !ok {
      return;
    }
    WalkStep(osn, end, start, 4);
    ghost var second := off;
    ok, signature, value, off := Step(osn, end, off);
    WalkStep(osn, end, second, 3);
    if !ok {
      return;
    }
    ghost var third := off;
    ok, euicc, value, off := Step(osn, end, off);
    WalkStep(osn, end, third, 2);
    if !ok {
      return;
    }
    ghost var fourth := off;
    ok, eum, value, off := Step(osn, end, off);
    WalkStep(osn, end, fourth, 1);
    if !ok {
      return;
    }
    assert Walk(osn, end, off, 0) == Some([]);
    assert [tbs] + ([signature] + ([euicc] + ([eum] + []))) == [tbs, signature, euicc, eum];
  }

  lemma WalkStep(buf: Bytes, end: nat, off: nat, n: nat)
    requires end <= |buf| && n >= 1
    ensures Walk(buf, end, off, n) ==
            match StepTlv(buf, end, off)
            case None => None
            case Some(t) =>
              match Walk(buf, end, off + t.Size(), n - 1)
              case None => None
              case Some(rest) => Some([buf[off..off + t.Size()]] + rest)
  {
  }
}
