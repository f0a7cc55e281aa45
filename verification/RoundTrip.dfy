/** What holds of every package the builder makes. */
module RoundTrip {
  import opened Octets
  import opened DerLength
  import opened Tlv
  import opened Cipher
  import opened Channel
  import opened Package
  import opened Recovery
  import opened Binding
  import opened Signing

  // ---- the reader finds what the builder protected ----

  lemma {:induction false} SentChunks(chunks: seq<Bytes>, values: seq<Bytes>)
    requires |chunks| == |values|
    ensures Sent(ChunkJobs(chunks), values) == Elements(Encrypted, TAG_86, values)
    ensures Plains(ChunkJobs(chunks)) == chunks
    ensures Profile(Sent(ChunkJobs(chunks), values), chunks) == Concat(chunks)
  {
    if chunks != [] {
      var es, rest := Sent(ChunkJobs(chunks), values), Sent(ChunkJobs(chunks[1..]), values[1..]);
      SentChunks(chunks[1..], values[1..]);
      assert ChunkJobs(chunks)[1..] == ChunkJobs(chunks[1..]);
      assert es[1..] == rest && es[0].tag == TAG_86;
      assert chunks == [chunks[0]] + chunks[1..];
    }
  }

  lemma SentJobs(metadata: Bytes, upp: Bytes, values: seq<Bytes>)
    requires |values| == |Jobs(metadata, upp)|
    ensures var head := [Element(Encrypted, TAG_87, values[0]), Element(MacOnly, TAG_88, values[1])];
            Sent(Jobs(metadata, upp), values) == head + Elements(Encrypted, TAG_86, values[2..])
    ensures Plains(Jobs(metadata, upp)) == [CONFIGURE_ISDP, metadata] + Chunks(upp)
    ensures Profile(Sent(Jobs(metadata, upp), values), Plains(Jobs(metadata, upp))) == upp
  {
    hide Chunks, ChunkJobs, Sent, Plains, Profile, Elements;
    var chunks := Chunks(upp);
    var tail, vs := ChunkJobs(chunks), values[2..];
    var j0, j1 := Job(Encrypted, TAG_87, CONFIGURE_ISDP), Job(MacOnly, TAG_88, metadata);
    assert Jobs(metadata, upp) == [j0] + ([j1] + tail) && values == [values[0]] + ([values[1]] + vs);
    SentChunks(chunks, vs);
    SentCons(j1, tail, values[1], vs);
    SentCons(j0, [j1] + tail, values[0], [values[1]] + vs);
    var e0, e1 := Element(Encrypted, TAG_87, values[0]), Element(MacOnly, TAG_88, values[1]);
    assert [e0] + ([e1] + Sent(tail, vs)) == [e0, e1] + Sent(tail, vs);
    assert [] + ([] + Concat(chunks)) == Concat(chunks);
    assert [CONFIGURE_ISDP] + ([metadata] + chunks) == [CONFIGURE_ISDP, metadata] + chunks;
  }

  lemma SentCons(j: Job, js: seq<Job>, v: Bytes, vs: seq<Bytes>)
    requires |js| == |vs|
    ensures Sent([j] + js, [v] + vs) == [Element(j.mode, j.tag, v)] + Sent(js, vs)
    ensures Plains([j] + js) == [j.plain] + Plains(js)
    ensures Profile(Sent([j] + js, [v] + vs), Plains([j] + js)) ==
            (if j.tag == TAG_86 then j.plain else []) + Profile(Sent(js, vs), Plains(js))
  {
    assert ([j] + js)[1..] == js && ([v] + vs)[1..] == vs;
    var e := Element(j.mode, j.tag, v);
    assert ([e] + Sent(js, vs))[1..] == Sent(js, vs) && ([j.plain] + Plains(js))[1..] == Plains(js);
  }

  lemma ScanBuilt(isc: Bytes, values: seq<Bytes>)
    requires |isc| <= MAX_LENGTH
    requires |values| >= 3 && AllFit(values) && |values[0]| <= 2000 && |values[1]| <= 2000
    requires Enveloped(Encode(ISC, isc), values).Some?
    ensures Scan(Enveloped(Encode(ISC, isc), values).value) ==
            Scanned([Element(Encrypted, TAG_87, values[0]), Element(MacOnly, TAG_88, values[1])] +
                    Elements(Encrypted, TAG_86, values[2..]), true)
  {
    hide Layout, Scan, ReadTlv, ScanGroup, LengthOctets;
    WrapperTags();
    var v0, v1, vs := values[0], values[1], values[2..];
    assert AllFit([v0]) && AllFit([v1]) && AllFit(vs);
    OneWrapped(TAG_87, v0);
    OneWrapped(TAG_88, v1);
    ScanWrapped(TAG_87, 7, Encrypted, [v0]);
    ScanWrapped(TAG_88, 8, MacOnly, [v1]);
    ScanWrapped(TAG_86, 6, Encrypted, vs);
    ScanLayout(isc, Wrapped(TAG_87, [v0]), Wrapped(TAG_88, [v1]), None, Wrapped(TAG_86, vs));
    var f, m := Elements(Encrypted, TAG_87, [v0]), Elements(MacOnly, TAG_88, [v1]);
    assert f == [Element(Encrypted, TAG_87, v0)] && m == [Element(MacOnly, TAG_88, v1)];
    assert f + (m + Elements(Encrypted, TAG_86, vs)) == f + m + Elements(Encrypted, TAG_86, vs);
  }

  lemma OneWrapped(tag: byte, v: Bytes)
    requires |v| <= MAX_LENGTH
    ensures AllFit([v]) && Wrapped(tag, [v]) == Encode([tag], v)
  {
    assert Encode([tag], v) + [] == Encode([tag], v);
  }

  /** What protecting these commands sends. */
  function BuiltElements(c: Suite, s: State, jobs: seq<Job>): seq<Element>
    requires AllProtectable(jobs)
  {
    Sent(jobs, ProtectAll(c, s, jobs).values)
  }

  /** What a receiver starting where the builder did finds and verifies in a built package. */
  lemma BuiltReplays(c: Suite, answer: Option<Signature>, s: State, input: Input)
    requires Lawful(c)
    requires Build(c, answer, s, input).package.Some?
    ensures var b := Build(c, answer, s, input);
            var sc, plains := Scan(b.package.value), [CONFIGURE_ISDP, input.metadata] + Chunks(input.upp);
            && sc.complete && |sc.elements| >= 3
            && sc.elements[0].tag == TAG_87 && sc.elements[1].tag == TAG_88
            && (forall i :: 2 <= i < |sc.elements| ==> sc.elements[i].tag == TAG_86)
            && Replay(c, s, sc.elements) == Replayed(plains, b.next, Yes(()))
            && |plains| <= |sc.elements| && Profile(sc.elements, plains) == input.upp
    ensures AllProtectable(Jobs(input.metadata, input.upp))
    ensures Scan(Build(c, answer, s, input).package.value).elements ==
            BuiltElements(c, s, Jobs(input.metadata, input.upp))
  {
    hide Scan, Protects, ProtectAll, Replay, Profile, Chunks, IscContent, Enveloped;
    var jobs := Jobs(input.metadata, input.upp);
    JobsAreProtectable(input.metadata, input.upp);
    var r := ProtectAll(c, s, jobs);
    ProtectAllSizes(c, s, jobs);
    ScanBuilt(IscContent(input.transactionId, input.otpkDp, answer.value), r.values);
    SentJobs(input.metadata, input.upp, r.values);
    SealedIsProtected(c, s, jobs);
    ProtectionsAreAccepted(c, s, Plains(jobs), Sent(jobs, r.values), r.next);
  }

  /** The round trip: whatever package the builder makes, recovery from an equal starting
      session returns the profile octet for octet, and both sessions end alike. */
  lemma BuiltIsRecovered(c: Suite, answer: Option<Signature>, s: State, input: Input)
    requires Lawful(c)
    requires Build(c, answer, s, input).package.Some?
    ensures var b := Build(c, answer, s, input);
            Recover(c, s, b.package.value) == Recovered(Yes(input.upp), b.next)
  {
    hide Build, Scan, Replay, Profile, Chunks;
    BuiltReplays(c, answer, s, input);
  }

  /** The metadata reaches the card octet for octet: the second element of every built
      package is an '88', and replays to it. */
  lemma MetadataIsCarried(c: Suite, answer: Option<Signature>, s: State, input: Input)
    requires Lawful(c)
    requires Build(c, answer, s, input).package.Some?
    ensures var es := Scan(Build(c, answer, s, input).package.value).elements;
            && |es| >= 3 && es[1].tag == TAG_88
            && Replay(c, s, es).plains == [CONFIGURE_ISDP, input.metadata] + Chunks(input.upp)
  {
    hide Build, Scan, Replay, Profile, Chunks;
    BuiltReplays(c, answer, s, input);
  }

  // ---- what is MACed is what is sent ----

  /** The session a list's i-th command is protected in. */
  function StateAt(c: Suite, s: State, jobs: seq<Job>, i: nat): State
    requires AllProtectable(jobs) && i <= |jobs|
  {
    ProtectAll(c, s, jobs[..i]).next
  }

  lemma {:induction false} ValueAt(c: Suite, s: State, jobs: seq<Job>, i: nat)
    requires AllProtectable(jobs) && i < |jobs|
    ensures ProtectAll(c, s, jobs).values[i] ==
            Protect(c, StateAt(c, s, jobs, i), jobs[i].mode, jobs[i].tag, jobs[i].plain).value
    decreases i
  {
    hide Protect;
    if i > 0 {
      var p := Protect(c, s, jobs[0].mode, jobs[0].tag, jobs[0].plain);
      ValueAt(c, p.next, jobs[1..], i - 1);
      assert jobs[..i][1..] == jobs[1..][..i - 1];
    }
  }

  /** For every element of every package: the CMAC input, after the chaining value, is the
      wire TLV without its last eight octets, and those eight are the front of that CMAC. */
  lemma MacedIsSent(c: Suite, s: State, metadata: Bytes, upp: Bytes, i: nat)
    requires |metadata| <= MAX_SEGMENT_PLAINTEXT
    requires i < |Jobs(metadata, upp)|
    ensures AllProtectable(Jobs(metadata, upp))
    ensures var jobs := Jobs(metadata, upp);
            var value, at := ProtectAll(c, s, jobs).values[i], StateAt(c, s, jobs, i);
            var body := Body(c, at, jobs[i].mode, jobs[i].plain);
            && MAC_LEN <= |value| <= MAX_LENGTH && |body| + MAC_LEN <= MAX_LENGTH
            && var input, wire := MacInput(at.chain, jobs[i].tag, body), Encode([jobs[i].tag], value);
               && input == at.chain + wire[..|wire| - MAC_LEN]
               && wire[|wire| - MAC_LEN..] == c.cmac(at.sMac, input)[..MAC_LEN]
  {
    var jobs := Jobs(metadata, upp);
    JobsAreProtectable(metadata, upp);
    ValueAt(c, s, jobs, i);
    OneMacedIsSent(c, StateAt(c, s, jobs, i), jobs[i].mode, jobs[i].tag, jobs[i].plain);
  }

  lemma OneMacedIsSent(c: Suite, s: State, mode: Mode, tag: byte, plain: Bytes)
    requires Protectable(mode, plain)
    ensures var value, body := Protect(c, s, mode, tag, plain).value, Body(c, s, mode, plain);
            var input, wire := MacInput(s.chain, tag, body), Encode([tag], value);
            && input == s.chain + wire[..|wire| - MAC_LEN]
            && wire[|wire| - MAC_LEN..] == c.cmac(s.sMac, input)[..MAC_LEN]
  {
    var value, body := Protect(c, s, mode, tag, plain).value, Body(c, s, mode, plain);
    var mac := Mac(c, s, tag, body);
    var wire := Encode([tag], value);
    assert wire == ([tag] + LengthOctets(|value|) + body) + mac[..MAC_LEN];
    assert wire[..|wire| - MAC_LEN] == [tag] + LengthOctets(|value|) + body;
    assert s.chain + ([tag] + LengthOctets(|value|) + body) == MacInput(s.chain, tag, body);
  }

  // ---- the encryption counter ----

  /** 2^128. */
  const COUNTER_SPACE: nat := 0x1_0000_0000_0000_0000_0000_0000_0000_0000

  /** However many elements a session protects or verifies, on whatever mix of tags, its
      counter moves by exactly that many, modulo 2^128. */
  lemma {:induction false} CounterCounts(c: Suite, s: State, plains: seq<Bytes>, es: seq<Element>, next: State)
    requires Protects(c, s, plains, es, next)
    ensures BeNat(next.counter) == (BeNat(s.counter) + |es|) % COUNTER_SPACE
    ensures next.sEnc == s.sEnc
    decreases |es|
  {
    hide BeNat, Pow256, Increment, Body, Mac;
    BeNatBound(s.counter);
    CounterSpaceIs();
    if es != [] {
      var p := Protect(c, s, es[0].mode, es[0].tag, plains[0]);
      IncrementAddsOne(s.counter);
      CounterCounts(c, p.next, plains[1..], es[1..], next);
      ModStep(BeNat(s.counter), |es| - 1);
    }
  }

  lemma CounterSpaceIs()
    ensures Pow256(16) == COUNTER_SPACE
  {
    assert Pow256(3) == 256 * Pow256(2);
    assert Pow256(6) == 256 * Pow256(5) && Pow256(4) == 256 * Pow256(3);
    assert Pow256(9) == 256 * Pow256(8) && Pow256(7) == 256 * Pow256(6);
    assert Pow256(12) == 256 * Pow256(11) && Pow256(10) == 256 * Pow256(9);
    assert Pow256(15) == 256 * Pow256(14) && Pow256(13) == 256 * Pow256(12);
  }

  lemma ModStep(x: nat, k: nat)
    requires x < COUNTER_SPACE
    ensures ((if x + 1 == COUNTER_SPACE then 0 else x + 1) + k) % COUNTER_SPACE == (x + k + 1) % COUNTER_SPACE
  {
  }

  lemma CounterAt(c: Suite, s: State, jobs: seq<Job>, i: nat)
    requires AllProtectable(jobs) && i <= |jobs|
    ensures BeNat(StateAt(c, s, jobs, i).counter) == (BeNat(s.counter) + i) % COUNTER_SPACE
    ensures StateAt(c, s, jobs, i).sEnc == s.sEnc
  {
    hide BeNat, Pow256, Protects;
    SealedIsProtected(c, s, jobs[..i]);
    var r := ProtectAll(c, s, jobs[..i]);
    CounterCounts(c, s, Plains(jobs[..i]), Sent(jobs[..i], r.values), r.next);
  }

  /** No two elements of one package are encrypted under one ICV. */
  lemma IcvsDiffer(c: Suite, s: State, jobs: seq<Job>, i: nat, j: nat)
    requires Lawful(c)
    requires AllProtectable(jobs) && i < j < |jobs| <= COUNTER_SPACE
    ensures Icv(c, StateAt(c, s, jobs, i)) != Icv(c, StateAt(c, s, jobs, j))
  {
    hide BeNat, Pow256, StateAt;
    CounterAt(c, s, jobs, i);
    CounterAt(c, s, jobs, j);
    ResiduesDiffer(BeNat(s.counter) + i, BeNat(s.counter) + j);
    var a, b := StateAt(c, s, jobs, i), StateAt(c, s, jobs, j);
    assert a.counter != b.counter;
    assert c.dec(s.sEnc, c.enc(s.sEnc, a.counter)) == a.counter;
    assert c.dec(s.sEnc, c.enc(s.sEnc, b.counter)) == b.counter;
  }

  lemma ResiduesDiffer(a: nat, b: nat)
    requires a < b < a + COUNTER_SPACE
    ensures a % COUNTER_SPACE != b % COUNTER_SPACE
  {
  }

  /** So no built package uses an ICV twice, however long its profile. */
  lemma PackageNeverReusesIcv(
    c: Suite, answer: Option<Signature>, s: State, input: Input, i: nat, j: nat)
    requires Lawful(c)
    requires Build(c, answer, s, input).package.Some?
    requires i < j < |Jobs(input.metadata, input.upp)|
    ensures AllProtectable(Jobs(input.metadata, input.upp))
    ensures var jobs := Jobs(input.metadata, input.upp);
            Icv(c, StateAt(c, s, jobs, i)) != Icv(c, StateAt(c, s, jobs, j))
  {
    hide Chunks, StateAt, ProtectAll, Enveloped;
    JobsAreProtectable(input.metadata, input.upp);
    BuiltIsSmall(c, answer, s, input);
    IcvsDiffer(c, s, Jobs(input.metadata, input.upp), i, j);
  }

  /** After a fresh bind of n octets the counter stands at 3 + n/1007 rounded up. */
  lemma CounterAfterBind(c: Suite, answer: Option<Signature>, s: State, input: Input)
    requires BeNat(s.counter) == 1
    requires Build(c, answer, s, input).package.Some?
    ensures BeNat(Build(c, answer, s, input).next.counter) == 3 + (|input.upp| + 1006) / 1007
  {
    hide BeNat, Pow256, ProtectAll, Chunks, Enveloped;
    var jobs := Jobs(input.metadata, input.upp);
    JobsAreProtectable(input.metadata, input.upp);
    ChunksFillSegments(input.upp);
    CounterAt(c, s, jobs, |jobs|);
    assert jobs[..|jobs|] == jobs;
    BuiltIsSmall(c, answer, s, input);
  }

  lemma BuiltIsSmall(c: Suite, answer: Option<Signature>, s: State, input: Input)
    requires Build(c, answer, s, input).package.Some?
    ensures |Chunks(input.upp)| <= MAX_LENGTH
  {
    hide ProtectAll, Chunks, IscContent, Layout;
    var jobs := Jobs(input.metadata, input.upp);
    JobsAreProtectable(input.metadata, input.upp);
    var r := ProtectAll(c, s, jobs);
    ProtectAllSizes(c, s, jobs);
    WrappedAtLeast(TAG_86, r.values[2..]);
  }

  lemma {:induction false} WrappedAtLeast(tag: byte, values: seq<Bytes>)
    requires AllFit(values)
    ensures |Wrapped(tag, values)| >= |values|
  {
    if values != [] {
      WrappedAtLeast(tag, values[1..]);
    }
  }

  // ---- the closed length ----

  /** The '86' group's content for a profile of n octets. */
  function ProfileSize(n: nat): nat
    requires n >= 1
  {
    var full := (n - 1) / 1007;
    1020 * full + SegmentSize(n - 1007 * full)
  }

  lemma {:induction false} WrappedChunksSize(upp: Bytes, values: seq<Bytes>)
    requires upp != [] && |values| == |Chunks(upp)| && AllFit(values)
    requires forall i :: 0 <= i < |values| ==> |values[i]| == BodySize(Encrypted, |Chunks(upp)[i]|) + MAC_LEN
    ensures |Wrapped(TAG_86, values)| == ProfileSize(|upp|)
    decreases |upp|
  {
    hide LengthOctets, SegmentSize, ProfileSize;
    SegmentFitsIff(|Chunks(upp)[0]|);
    SegmentFitsIff(MAX_SEGMENT_PLAINTEXT);
    OneSegment(values[0], |Chunks(upp)[0]|);
    ProfileSizeStep(|upp|);
    if |upp| > MAX_SEGMENT_PLAINTEXT {
      var rest := upp[MAX_SEGMENT_PLAINTEXT..];
      assert Chunks(upp)[1..] == Chunks(rest);
      assert forall i :: 0 <= i < |values[1..]| ==>
                           values[1..][i] == values[i + 1] && Chunks(rest)[i] == Chunks(upp)[i + 1];
      WrappedChunksSize(rest, values[1..]);
    } else {
      assert values[1..] == [];
    }
  }

  lemma OneSegment(value: Bytes, k: nat)
    requires k <= MAX_SEGMENT_PLAINTEXT && |value| == BodySize(Encrypted, k) + MAC_LEN
    ensures |value| <= MAX_LENGTH && |Encode([TAG_86], value)| == SegmentSize(k)
  {
  }

  lemma ProfileSizeStep(n: nat)
    requires n >= 1
    ensures ProfileSize(n) ==
            if n > MAX_SEGMENT_PLAINTEXT then 1020 + ProfileSize(n - MAX_SEGMENT_PLAINTEXT) else SegmentSize(n)
  {
    hide SegmentSize;
    if n > MAX_SEGMENT_PLAINTEXT {
      assert (n - 1) / 1007 == (n - MAX_SEGMENT_PLAINTEXT - 1) / 1007 + 1;
    } else {
      assert (n - 1) / 1007 == 0;
    }
  }

  /** The outer content for n octets of profile and m of metadata: 179 octets of request,
      28 of ConfigureISDP group, the metadata group, the profile group. */
  function ContentSize(n: nat, m: nat): nat
    requires n >= 1 && ProfileSize(n) <= MAX_LENGTH && m <= MAX_SEGMENT_PLAINTEXT
  {
    179 + 28 + TlvSize(TlvSize(m + MAC_LEN)) + TlvSize(ProfileSize(n))
  }

  /** The input is one the builder accepts: something in both fields, metadata within one
      segment, and lengths within the four-octet form. */
  predicate Buildable(n: nat, m: nat) {
    && n >= 1 && 1 <= m <= MAX_SEGMENT_PLAINTEXT
    && ProfileSize(n) <= MAX_LENGTH && ContentSize(n, m) <= MAX_LENGTH
  }

  /** The builder succeeds exactly on buildable inputs it can sign for, and the package's
      length is a function of the two input lengths. */
  lemma BuildSucceedsIff(c: Suite, answer: Option<Signature>, s: State, input: Input)
    ensures var b, n, m := Build(c, answer, s, input).package, |input.upp|, |input.metadata|;
            && (b.Some? <==> Buildable(n, m) && answer.Some?)
            && (b.Some? ==> |b.value| == 1 + TlvSize(ContentSize(n, m)))
  {
    hide ProtectAll, Chunks, IscContent, ProfileSize, Wrapped;
    if 1 <= |input.metadata| <= MAX_SEGMENT_PLAINTEXT && input.upp != [] && answer.Some? {
      var jobs := Jobs(input.metadata, input.upp);
      JobsAreProtectable(input.metadata, input.upp);
      var r := ProtectAll(c, s, jobs);
      ProtectAllSizes(c, s, jobs);
      EnvelopedSize(IscContent(input.transactionId, input.otpkDp, answer.value), r.values, input.metadata, input.upp);
    }
  }

  lemma EnvelopedSize(isc: Bytes, values: seq<Bytes>, metadata: Bytes, upp: Bytes)
    requires |isc| == 175 && upp != [] && 1 <= |metadata| <= MAX_SEGMENT_PLAINTEXT
    requires |values| == |Jobs(metadata, upp)| && AllFit(values)
    requires forall i :: 0 <= i < |values| ==>
      |values[i]| == BodySize(Jobs(metadata, upp)[i].mode, |Jobs(metadata, upp)[i].plain|) + MAC_LEN
    ensures |values[0]| == 24 && |values[1]| == |metadata| + MAC_LEN
    ensures var e := Enveloped(Encode(ISC, isc), values);
            && (e.Some? <==> Buildable(|upp|, |metadata|))
            && (e.Some? ==> |e.value| == 1 + TlvSize(ContentSize(|upp|, |metadata|)))
  {
    hide Chunks, ProfileSize, Wrapped, LengthOctets;
    var jobs, vs := Jobs(metadata, upp), values[2..];
    assert jobs[0] == HeadJobs(metadata)[0] && jobs[1] == HeadJobs(metadata)[1];
    assert AllFit(vs);
    forall i | 0 <= i < |vs|
      ensures |vs[i]| == BodySize(Encrypted, |Chunks(upp)[i]|) + MAC_LEN
    {
      assert jobs[i + 2] == Job(Encrypted, TAG_86, Chunks(upp)[i]);
      assert vs[i] == values[i + 2];
    }
    WrappedChunksSize(upp, vs);
    SmallTlvs(isc, values[0], values[1]);
  }

  lemma SmallTlvs(isc: Bytes, v87: Bytes, v88: Bytes)
    requires |isc| == 175 && |v87| == 24 && |v88| <= 1015
    ensures |Encode(ISC, isc)| == 179
    ensures |Encode([TAG_87], v87)| == 26 && |Encode(FIRST_87, Encode([TAG_87], v87))| == 28
    ensures |Encode([TAG_88], v88)| == TlvSize(|v88|) <= 1020
    ensures |Encode(SEQUENCE_88, Encode([TAG_88], v88))| == TlvSize(TlvSize(|v88|))
  {
  }

  /** A profile of 2015 octets under 37 octets of metadata makes a package of 2331. */
  lemma PinnedLength()
    ensures Buildable(2015, 37) && 1 + TlvSize(ContentSize(2015, 37)) == 2331
  {
    assert ProfileSize(2015) == 2066;
  }

  // ---- the empty profile ----

  /** A package no builder makes can still be recovered, to nothing: one whose only '86'
      element is padding. */
  lemma EmptyRecoveryExists(c: Suite, s: State)
    returns (b: Bytes)
    requires Lawful(c)
    ensures Recover(c, s, b).answer == Yes([])
  {
    hide Scan, ReadTlv, ScanGroup, LengthOctets, Unprotect, Protect;
    WrapperTags();
    var p := Protect(c, s, Encrypted, TAG_86, []);
    OneWrapped(TAG_86, p.value);
    assert AllFit([]) && Wrapped(TAG_87, []) == [];
    ScanWrapped(TAG_87, 7, Encrypted, []);
    ScanWrapped(TAG_88, 8, MacOnly, []);
    ScanWrapped(TAG_86, 6, Encrypted, [p.value]);
    ScanLayout([], [], [], None, Wrapped(TAG_86, [p.value]));
    b := Encode(BPP, Layout(Encode(ISC, []), [], [], Second(None), Wrapped(TAG_86, [p.value])));
    var e := Element(Encrypted, TAG_86, p.value);
    assert Elements(Encrypted, TAG_86, [p.value]) == [e];
    assert Scan(b) == Scanned([] + ([] + [e]), true);
    assert [] + ([] + [e]) == [e];
    UnprotectUndoesProtect(c, s, Encrypted, TAG_86, []);
    assert [e][1..] == [];
    assert Replay(c, s, [e]).plains == [[]];
    assert Profile([e], [[]]) == [];
  }
}
