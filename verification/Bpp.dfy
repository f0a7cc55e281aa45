/** rsp_bpp_build and rsp_bpp_recover as they run: growable buffers, a session advanced in
    place, cursors over the wire, each proved against the value-level package. */
module Bpp {
  import opened Octets
  import opened DerLength
  import opened Tlv
  import opened Cipher
  import opened Channel
  import opened Package
  import opened Recovery
  import opened Binding
  import GB = GrowBuf
  import opened Signing
  import Scp03t

  /** RSP_BPP_SEGMENT_BUF: a full block, padding and MAC. */
  const SEGMENT_BUF: nat := MAX_SEGMENT_PLAINTEXT + 16 + 8

  /** put_tlv_tag: three appends, refused exactly when the length does not fit. */
  method PutTlv(g: GB.GrowBuf, tag: Bytes, content: Bytes) returns (ok: bool)
    requires g.Valid()
    requires |content| <= SIZE_MAX
    requires g.len + |tag| + MAX_OCTETS + |content| <= GB.LIMIT
    modifies g, g.buf
    ensures g.Valid() && (g.buf == old(g.buf) || fresh(g.buf))
    ensures ok == (|content| <= MAX_LENGTH)
    ensures ok ==> g.Contents() == old(g.Contents()) + Encode(tag, content)
    ensures ok ==> g.len == old(g.len) + |Encode(tag, content)|
    ensures !ok ==> g.Contents() == old(g.Contents()) && g.len == old(g.len)
  {
    hide GB.IsCapacity, GB.GrowBuf.Valid, GB.GrowBuf.Contents, LengthOctets;
    var lo := new byte[MAX_OCTETS](_ => 0);
    var ret, n := EncodeLength(|content|, lo);
    if ret != 0 {
      return false;
    }
    var octets := lo[..n];
    ghost var was := g.Contents();
    g.Append(tag);
    assert g.Contents() == was + tag;
    g.Append(octets);
    assert g.Contents() == was + tag + octets;
    if |content| > 0 {
      g.Append(content);
    }
    assert g.Contents() == was + tag + octets + content == was + Encode(tag, content);
    return true;
  }

  // ---- recovery ----

  /** How one group ends: the session after it, the code it returns, and, when that is 0,
      its plaintexts in order. */
  datatype GroupEnd = GroupEnd(next: State, code: int, text: Bytes)

  ghost function EndOf(sc: Scanned, r: Replayed): GroupEnd {
    match r.verdict
    case No => GroupEnd(r.next, -1, [])
    case Unreached => GroupEnd(r.next, -2, [])
    case Yes(_) =>
      if sc.complete then GroupEnd(r.next, 0, Concat(r.plains)) else GroupEnd(r.next, -2, [])
  }

  ghost function RunGroup(c: Suite, s: State, w: Bytes, number: nat, mode: Mode, tag: byte): (r: GroupEnd)
    ensures -2 <= r.code <= 0
  {
    var sc := ScanGroup(w, number, mode, tag);
    EndOf(sc, Replay(c, s, sc.elements))
  }

  lemma RunGroupStep(c: Suite, s: State, w: Bytes, number: nat, mode: Mode, tag: byte)
    requires w != []
    ensures RunGroup(c, s, w, number, mode, tag) ==
            match Group(w, number)
            case None => GroupEnd(s, -2, [])
            case Some((value, rest)) =>
              match Unprotect(c, s, mode, tag, value)
              case No => GroupEnd(s, -1, [])
              case Unreached => GroupEnd(s, -2, [])
              case Yes(o) =>
                var e := RunGroup(c, o.next, rest, number, mode, tag);
                if e.code == 0 then e.(text := o.plain + e.text) else e
  {
    hide Unprotect, Group;
    if Group(w, number).Some? {
      var (value, rest) := Group(w, number).value;
      var e := Element(mode, tag, value);
      var es := ScanGroup(rest, number, mode, tag).elements;
      assert ([e] + es)[1..] == es && ([e] + es)[0] == e;
      var u := Unprotect(c, s, mode, tag, value);
      if u.Yes? {
        var ps := Replay(c, u.value.next, es).plains;
        assert ([u.value.plain] + ps)[1..] == ps;
      }
    }
  }

  /** Unprotect one element into a scratch buffer of its own size, which is always large
      enough. */
  method OpenElement(c: Suite, s: Scp03t.Session, mode: Mode, tag: byte, value: Bytes) returns (n: int, text: Bytes)
    requires s.Valid() && |value| <= SIZE_MAX
    modifies s`chain, s.encCounter
    ensures match Unprotect(c, old(s.Value()), mode, tag, value)
            case No => n == -1 && s.Value() == old(s.Value())
            case Unreached => n == -2 && s.Value() == old(s.Value())
            case Yes(o) => n == |o.plain| && text == o.plain && s.Value() == o.next
    ensures n <= |value|
  {
    hide Unprotect;
    text := [];
    var plain := new byte[|value|](_ => 0);
    if mode == MacOnly {
      n := s.UnprotectMacOnly(c, value, tag, plain);
    } else {
      n := s.UnprotectSegment(c, value, tag, plain);
    }
    if n >= 0 {
      text := plain[..n];
    }
  }

  /** verify_and_advance: each element of one group in turn, its plaintext dropped. */
  method VerifyAndAdvance(c: Suite, s: Scp03t.Session, w: Bytes, number: nat, mode: Mode, tag: byte) returns (ret: int)
    requires s.Valid() && |w| <= SIZE_MAX
    modifies s`chain, s.encCounter
    ensures var e := RunGroup(c, old(s.Value()), w, number, mode, tag);
            s.Value() == e.next && ret == e.code
  {
    hide Unprotect, RunGroup, ReadTlv;
    var p := 0;
    ghost var total := RunGroup(c, s.Value(), w, number, mode, tag);
    assert w[0..] == w;
    while p < |w|
      invariant 0 <= p <= |w|
      invariant var e := RunGroup(c, s.Value(), w[p..], number, mode, tag);
                e.next == total.next && e.code == total.code
    {
      RunGroupStep(c, s.Value(), w[p..], number, mode, tag);
      var found := Group(w[p..], number);
      if found.None? {
        return -2;
      }
      var size := ReadTlv(w[p..]).value.Size();
      assert w[p..][size..] == w[p + size..];
      p := p + size;
      var n, _ := OpenElement(c, s, mode, tag, found.value.0);
      if n < 0 {
        return if n == -1 then -1 else -2;
      }
    }
    NothingLeft(c, s.Value(), number, mode, tag);
    assert w[p..] == [];
    return 0;
  }

  lemma NothingLeft(c: Suite, s: State, number: nat, mode: Mode, tag: byte)
    ensures RunGroup(c, s, [], number, mode, tag) == GroupEnd(s, 0, [])
  {
  }

  /** The sequenceOf86 loop of rsp_bpp_recover: verified plaintexts are appended to g, and
      an empty group is refused. */
  method RecoverSegments(c: Suite, s: Scp03t.Session, w: Bytes, g: GB.GrowBuf) returns (ret: int)
    requires s.Valid() && g.Valid() && g.Contents() == [] && g.buf == null && g.len == 0
    requires |w| <= GB.LIMIT
    modifies s`chain, s.encCounter, g
    ensures g.Valid() && (g.buf == null || fresh(g.buf)) && (g.len == 0 ==> g.buf == null)
    ensures var e := RunGroup(c, old(s.Value()), w, 6, Encrypted, TAG_86);
            && s.Value() == e.next
            && ret == (if w == [] then -2 else e.code)
            && (ret == 0 ==> g.Contents() == e.text)
  {
    hide Unprotect, RunGroup, ReadTlv, GB.IsCapacity, GB.GrowBuf.Valid, GB.GrowBuf.Contents;
    var p, seen := 0, 0;
    ghost var total := RunGroup(c, s.Value(), w, 6, Encrypted, TAG_86);
    assert w[0..] == w;
    while p < |w|
      invariant 0 <= p <= |w| && g.len <= p && (seen == 0 <==> p == 0)
      invariant g.Valid() && (g.buf == null || fresh(g.buf)) && (g.len == 0 ==> g.buf == null)
      invariant var e := RunGroup(c, s.Value(), w[p..], 6, Encrypted, TAG_86);
                && e.next == total.next && e.code == total.code
                && (e.code == 0 ==> g.Contents() + e.text == total.text)
    {
      RunGroupStep(c, s.Value(), w[p..], 6, Encrypted, TAG_86);
      var found := Group(w[p..], 6);
      if found.None? {
        return -2;
      }
      var size := ReadTlv(w[p..]).value.Size();
      assert w[p..][size..] == w[p + size..];
      p := p + size;
      seen := seen + 1;
      var n, text := OpenElement(c, s, Encrypted, TAG_86, found.value.0);
      if n < 0 {
        return if n == -1 then -1 else -2;
      }
      ghost var before := g.Contents();
      g.Append(text);
      ghost var rest := RunGroup(c, s.Value(), w[p..], 6, Encrypted, TAG_86).text;
      assert before + (text + rest) == before + text + rest;
    }
    NothingLeft(c, s.Value(), 6, Encrypted, TAG_86);
    assert w[p..] == [];
    if seen == 0 {
      return -2;
    }
    return 0;
  }

  // ---- the groups in turn come to the package's answer ----

  function Refusal(code: int): Answer<Bytes> {
    if code == -1 then No else Unreached
  }

  ghost function TailRun(c: Suite, s: State, p: Bytes): Recovered {
    Conclude(ScanTail(p), Replay(c, s, ScanTail(p).elements))
  }

  ghost function MetadataRun(c: Suite, s: State, p: Bytes): Recovered {
    Conclude(ScanMetadata(p), Replay(c, s, ScanMetadata(p).elements))
  }

  ghost function ConfigureRun(c: Suite, s: State, p: Bytes): Recovered {
    Conclude(ScanConfigure(p), Replay(c, s, ScanConfigure(p).elements))
  }

  /** A verified group contributes nothing to the profile unless its tag is '86', and hands
      its session to what follows. */
  lemma GroupThenRest(c: Suite, s: State, w: Bytes, number: nat, mode: Mode, tag: byte, t: Scanned)
    requires tag != TAG_86
    ensures var g, e := ScanGroup(w, number, mode, tag), RunGroup(c, s, w, number, mode, tag);
            var sc := if g.complete then Scanned(g.elements + t.elements, t.complete) else g;
            Conclude(sc, Replay(c, s, sc.elements)) ==
            if e.code == 0 then Conclude(t, Replay(c, e.next, t.elements)) else Recovered(Refusal(e.code), e.next)
  {
    hide ScanGroup, Replay, Profile;
    var g := ScanGroup(w, number, mode, tag);
    var r := Replay(c, s, g.elements);
    if g.complete {
      ReplayAppend(c, s, g.elements, t.elements);
      if r.verdict.Yes? {
        var q := Replay(c, r.next, t.elements);
        ScanGroupUniform(w, number, mode, tag);
        ProfileUniform(g.elements, r.plains, tag);
        if q.verdict.Yes? {
          ProfileAppend(g.elements, r.plains, t.elements, q.plains);
          assert [] + Profile(t.elements, q.plains) == Profile(t.elements, q.plains);
        }
      }
    }
  }

  lemma ConfigureInTurn(c: Suite, s: State, p: Bytes)
    ensures ConfigureRun(c, s, p) ==
            match Group(p, 0)
            case None => Recovered(Unreached, s)
            case Some((w, rest)) =>
              var e := RunGroup(c, s, w, 7, Encrypted, TAG_87);
              if e.code == 0 then MetadataRun(c, e.next, rest) else Recovered(Refusal(e.code), e.next)
  {
    hide ScanGroup, ScanMetadata, RunGroup, Group;
    if Group(p, 0).Some? {
      var (w, rest) := Group(p, 0).value;
      GroupThenRest(c, s, w, 7, Encrypted, TAG_87, ScanMetadata(rest));
    }
  }

  lemma MetadataInTurn(c: Suite, s: State, p: Bytes)
    ensures MetadataRun(c, s, p) ==
            match Group(p, 1)
            case None => Recovered(Unreached, s)
            case Some((w, rest)) =>
              var e := RunGroup(c, s, w, 8, MacOnly, TAG_88);
              if e.code == 0 then TailRun(c, e.next, rest) else Recovered(Refusal(e.code), e.next)
  {
    hide ScanGroup, ScanTail, RunGroup, Group;
    if Group(p, 1).Some? {
      var (w, rest) := Group(p, 1).value;
      GroupThenRest(c, s, w, 8, MacOnly, TAG_88, ScanTail(rest));
    }
  }

  lemma TailInTurn(c: Suite, s: State, p: Bytes)
    ensures var q := match Group(p, 2) case Some((_, rest)) => rest case None => p;
            TailRun(c, s, p) ==
            match Group(q, 3)
            case None => Recovered(Unreached, s)
            case Some((w, rest)) =>
              if rest != [] then Recovered(Unreached, s)
              else
                var e := RunGroup(c, s, w, 6, Encrypted, TAG_86);
                if e.code == 0 && w != [] then Recovered(Yes(e.text), e.next)
                else Recovered(if w == [] then Unreached else Refusal(e.code), e.next)
  {
    hide ScanGroup, Group;
    var q := match Group(p, 2) case Some((_, rest)) => rest case None => p;
    if Group(q, 3).Some? {
      var (w, rest) := Group(q, 3).value;
      var g := ScanGroup(w, 6, Encrypted, TAG_86);
      var r := Replay(c, s, g.elements);
      ScanGroupUniform(w, 6, Encrypted, TAG_86);
      ProfileUniform(g.elements, r.plains, TAG_86);
      GroupEmptyIff(w, 6, Encrypted, TAG_86);
    }
  }

  lemma GroupEmptyIff(w: Bytes, number: nat, mode: Mode, tag: byte)
    ensures var g := ScanGroup(w, number, mode, tag);
            g.complete ==> (g.elements == [] <==> w == [])
    ensures w == [] ==> ScanGroup(w, number, mode, tag) == Scanned([], true)
  {
  }

  /** rsp_bpp_recover. The profile comes back in a buffer of its own, NULL when there is
      nothing in it; on any failure there is no buffer, and the session stands where the
      last verified element left it. */
  method RecoverPackage(c: Suite, s: Scp03t.Session, bpp: Bytes) returns (ret: int, upp: array?<byte>, uppLen: nat)
    requires s.Valid() && |bpp| <= GB.LIMIT
    modifies s`chain, s.encCounter
    ensures var r := Recover(c, old(s.Value()), bpp);
            && s.Value() == r.next && ret == r.answer.Code()
            && (ret == 0 ==>
                  && (upp == null <==> r.answer.value == [])
                  && uppLen == |r.answer.value|
                  && (upp != null ==> fresh(upp) && uppLen <= upp.Length && upp[..uppLen] == r.answer.value))
            && (ret != 0 ==> upp == null)
  {
    hide RunGroup, Group, ScanConfigure, ConfigureRun, MetadataRun, TailRun, ReadTlv, GB.IsCapacity, Unprotect;
    ret, upp, uppLen := -2, null, 0;
    var outer := Group(bpp, 54);
    if outer.None? || outer.value.1 != [] {
      return;
    }
    var request := Group(outer.value.0, 35);
    if request.None? {
      return;
    }
    EnvelopeInTurn(c, s.Value(), bpp);
    ConfigureInTurn(c, s.Value(), request.value.1);
    var first := Group(request.value.1, 0);
    if first.None? {
      return;
    }
    var code := VerifyAndAdvance(c, s, first.value.0, 7, Encrypted, TAG_87);
    if code != 0 {
      ret := code;
      return;
    }
    MetadataInTurn(c, s.Value(), first.value.1);
    var metadata := Group(first.value.1, 1);
    if metadata.None? {
      return;
    }
    code := VerifyAndAdvance(c, s, metadata.value.0, 8, MacOnly, TAG_88);
    if code != 0 {
      ret := code;
      return;
    }
    TailInTurn(c, s.Value(), metadata.value.1);
    var rest := metadata.value.1;
    var second := Group(rest, 2);
    if second.Some? {
      rest := second.value.1;
    }
    var last := Group(rest, 3);
    if last.None? || last.value.1 != [] {
      return;
    }
    var g := new GB.GrowBuf();
    code := RecoverSegments(c, s, last.value.0, g);
    if code != 0 {
      ret := code;
      return;
    }
    ret, upp, uppLen := 0, g.buf, g.len;
  }

  lemma EnvelopeInTurn(c: Suite, s: State, b: Bytes)
    ensures Recover(c, s, b) ==
            match Group(b, 54)
            case None => Recovered(Unreached, s)
            case Some((content, rest)) =>
              if rest != [] then Recovered(Unreached, s)
              else
                match Group(content, 35)
                case None => Recovered(Unreached, s)
                case Some((_, groups)) => ConfigureRun(c, s, groups)
  {
    hide Group, ScanConfigure;
  }

  // ---- building ----

  /** The control reference template, in a buffer of its own. */
  method BuildTemplate(host: Bytes) returns (template: Bytes)
    requires |host| <= 16
    ensures template == ControlRef(host)
  {
    hide GB.IsCapacity, GB.GrowBuf.Valid, GB.GrowBuf.Contents, Encode, LengthOctets;
    var crt := new GB.GrowBuf();
    var _ := PutTlv(crt, [0x80], [0x88]);
    assert crt.Contents() == [] + Encode([0x80], [0x88]) == Encode([0x80], [0x88]);
    var _ := PutTlv(crt, [0x81], [0x10]);
    var _ := PutTlv(crt, [0x84], host);
    template := ContentsOf(crt);
  }

  /** build_isc_tbs: five data objects, one after the other. */
  method BuildIscTbs(g: GB.GrowBuf, transactionId: Block, host: Bytes, smdpOtpk: Point, euiccOtpk: Point)
    requires g.Valid() && g.Contents() == [] && g.len == 0 && g.buf == null
    requires |host| <= 16
    modifies g
    ensures g.Valid() && g.Contents() == IscTbs(transactionId, host, smdpOtpk, euiccOtpk)
  {
    hide GB.IsCapacity, GB.GrowBuf.Valid, GB.GrowBuf.Contents, Encode, LengthOctets, ControlRef;
    var template := BuildTemplate(host);
    var _ := PutTlv(g, [0x82], [0x01]);
    assert g.Contents() == [] + Encode([0x82], [0x01]) == Encode([0x82], [0x01]);
    var _ := PutTlv(g, [0x80], transactionId);
    var _ := PutTlv(g, [0xA6], template);
    var _ := PutTlv(g, OTPK, smdpOtpk);
    var _ := PutTlv(g, OTPK, euiccOtpk);
  }

  /** `g.buf, g.len` as a value. */
  method ContentsOf(g: GB.GrowBuf) returns (r: Bytes)
    requires g.Valid()
    ensures r == g.Contents() && |r| == g.len
  {
    r := if g.buf == null then [] else g.buf[..g.len];
  }

  /** One protected value wrapped in its own TLV, in a buffer of its own, and that in the
      group's wrapper. */
  method PutGroup(g: GB.GrowBuf, wrapper: byte, tag: byte, value: Bytes)
    requires g.Valid() && g.len <= 10_000 && |value| <= SEGMENT_BUF
    modifies g, g.buf
    ensures g.Valid() && (g.buf == old(g.buf) || fresh(g.buf))
    ensures |Encode([tag], value)| <= MAX_LENGTH
    ensures g.Contents() == old(g.Contents()) + Encode([wrapper], Encode([tag], value))
    ensures g.len <= old(g.len) + 2000
  {
    hide GB.IsCapacity, GB.GrowBuf.Valid, GB.GrowBuf.Contents;
    var wrapped := new GB.GrowBuf();
    var _ := PutTlv(wrapped, [tag], value);
    var inner := ContentsOf(wrapped);
    assert inner == [] + Encode([tag], value) == Encode([tag], value);
    var _ := PutTlv(g, [wrapper], inner);
  }

  /** What the rest of a profile turns into: its '86' TLVs, and the session after them. */
  ghost function ChunkRun(c: Suite, s: State, rest: Bytes): (r: (Bytes, State))
    requires AllProtectable(ChunkJobs(Chunks(rest)))
  {
    var p := ProtectAll(c, s, ChunkJobs(Chunks(rest)));
    ProtectAllSizes(c, s, ChunkJobs(Chunks(rest)));
    (Wrapped(TAG_86, p.values), p.next)
  }

  lemma ChunksAreProtectable(rest: Bytes)
    ensures AllProtectable(ChunkJobs(Chunks(rest)))
  {
  }

  lemma ChunkRunStep(c: Suite, s: State, rest: Bytes)
    requires AllProtectable(ChunkJobs(Chunks(rest)))
    ensures var k := if |rest| > MAX_SEGMENT_PLAINTEXT then MAX_SEGMENT_PLAINTEXT else |rest|;
            var p := Protect(c, s, Encrypted, TAG_86, rest[..k]);
            && |p.value| <= SEGMENT_BUF
            && AllProtectable(ChunkJobs(Chunks(rest[k..])))
            && ChunkRun(c, s, rest) ==
               if k == |rest| then (Encode([TAG_86], p.value), p.next)
               else (Encode([TAG_86], p.value) + ChunkRun(c, p.next, rest[k..]).0, ChunkRun(c, p.next, rest[k..]).1)
  {
    hide Body, Mac, Advance, Encode;
    var k := if |rest| > MAX_SEGMENT_PLAINTEXT then MAX_SEGMENT_PLAINTEXT else |rest|;
    var chunks := Chunks(rest);
    assert chunks[0] == rest[..k];
    ChunksAreProtectable(rest[k..]);
    var p := Protect(c, s, Encrypted, TAG_86, rest[..k]);
    var jobs := ChunkJobs(chunks);
    assert jobs[0] == Job(Encrypted, TAG_86, rest[..k]);
    assert jobs[1..] == ChunkJobs(chunks[1..]);
    if k == |rest| {
      assert chunks[1..] == [];
      assert ProtectAll(c, s, jobs) == Sealed([p.value], p.next);
      assert [p.value][1..] == [];
      assert Encode([TAG_86], p.value) + [] == Encode([TAG_86], p.value);
      assert Wrapped(TAG_86, [p.value]) == Encode([TAG_86], p.value);
      assert ChunkRun(c, s, rest) == (Encode([TAG_86], p.value), p.next);
      assert |p.value| <= SEGMENT_BUF;
    } else {
      var vs := ProtectAll(c, p.next, jobs[1..]).values;
      assert ([p.value] + vs)[1..] == vs;
    }
  }

  /** One turn of the segmentation loop: protect a block, append its TLV. */
  method BuildSegment(c: Suite, s: Scp03t.Session, block: Bytes, segBuf: array<byte>, g: GB.GrowBuf)
    requires s.Valid() && g.Valid() && segBuf.Length == SEGMENT_BUF
    requires s.encCounter != segBuf && g.buf != segBuf && g.buf != s.encCounter
    requires |block| <= MAX_SEGMENT_PLAINTEXT && g.len <= GB.LIMIT - 0x1000
    modifies s`chain, s.encCounter, segBuf, g, g.buf
    ensures g.Valid() && (g.buf == old(g.buf) || fresh(g.buf))
    ensures g.len <= old(g.len) + |block| + 40
    ensures var p := Protect(c, old(s.Value()), Encrypted, TAG_86, block);
            && s.Value() == p.next && |p.value| <= MAX_LENGTH
            && g.Contents() == old(g.Contents()) + Encode([TAG_86], p.value)
  {
    hide GB.IsCapacity, GB.GrowBuf.Valid, GB.GrowBuf.Contents, Protect;
    var n := s.ProtectSegment(c, block, TAG_86, segBuf);
    var value := segBuf[..n];
    var _ := PutTlv(g, [TAG_86], value);
  }

  lemma Split(s: Bytes, off: nat, n: nat)
    requires off + n <= |s|
    ensures s[off..][..n] == s[off..off + n] && s[off..][n..] == s[off + n..]
  {
    SliceOfSlice(s, off, |s|, 0, n);
    assert s[off..] == s[off..|s|];
  }

  /** The segmentation loop of rsp_bpp_build. */
  method BuildSegments(c: Suite, s: Scp03t.Session, upp: Bytes, g: GB.GrowBuf)
    requires s.Valid() && g.Valid() && g.Contents() == [] && g.len == 0 && g.buf == null
    requires 0 < |upp| <= GB.LIMIT / 2 - 0x1000
    modifies s`chain, s.encCounter, g
    ensures g.Valid() && g.len <= GB.LIMIT - 0x1800 && (g.buf == null || fresh(g.buf))
    ensures AllProtectable(ChunkJobs(Chunks(upp)))
    ensures (g.Contents(), s.Value()) == ChunkRun(c, old(s.Value()), upp)
  {
    hide GB.IsCapacity, GB.GrowBuf.Valid, GB.GrowBuf.Contents, ChunkRun, Chunks, ChunkJobs, Protect, Encode;
    hide AllProtectable;
    var segBuf := new byte[SEGMENT_BUF](_ => 0);
    var off := 0;
    ChunksAreProtectable(upp);
    ghost var total := ChunkRun(c, s.Value(), upp);
    assert upp[0..] == upp;
    assert [] + total.0 == total.0;
    while true
      invariant 0 <= off < |upp| && g.len <= 2 * off
      invariant g.Valid() && (g.buf == null || fresh(g.buf)) && g.buf != segBuf
      invariant AllProtectable(ChunkJobs(Chunks(upp[off..])))
      invariant var r := ChunkRun(c, s.Value(), upp[off..]);
                total == (g.Contents() + r.0, r.1)
      decreases |upp| - off
    {
      var chunk := |upp| - off;
      if chunk > MAX_SEGMENT_PLAINTEXT {
        chunk := MAX_SEGMENT_PLAINTEXT;
      }
      ChunkRunStep(c, s.Value(), upp[off..]);
      Split(upp, off, chunk);
      ghost var before, sofar := s.Value(), g.Contents();
      BuildSegment(c, s, upp[off..off + chunk], segBuf, g);
      off := off + chunk;
      if off >= |upp| {
        break;
      }
      ghost var p := Protect(c, before, Encrypted, TAG_86, upp[off - chunk..off]);
      ghost var rest := ChunkRun(c, s.Value(), upp[off..]).0;
      assert sofar + (Encode([TAG_86], p.value) + rest) == sofar + Encode([TAG_86], p.value) + rest;
    }
  }

  lemma JobsInTurn(c: Suite, s: State, metadata: Bytes, upp: Bytes)
    requires |metadata| <= MAX_SEGMENT_PLAINTEXT
    ensures AllProtectable(Jobs(metadata, upp)) && AllProtectable(ChunkJobs(Chunks(upp)))
    ensures var p := Protect(c, s, Encrypted, TAG_87, CONFIGURE_ISDP);
            var q := Protect(c, p.next, MacOnly, TAG_88, metadata);
            var r := ProtectAll(c, q.next, ChunkJobs(Chunks(upp)));
            && ProtectAll(c, s, Jobs(metadata, upp)) == Sealed([p.value, q.value] + r.values, r.next)
            && ([p.value, q.value] + r.values)[2..] == r.values
  {
    hide Chunks, Body, Mac, Advance;
    JobsAreProtectable(metadata, upp);
    ChunksAreProtectable(upp);
    var tail := ChunkJobs(Chunks(upp));
    var j0, j1 := Job(Encrypted, TAG_87, CONFIGURE_ISDP), Job(MacOnly, TAG_88, metadata);
    assert Jobs(metadata, upp) == [j0] + ([j1] + tail);
    assert ([j0] + ([j1] + tail))[1..] == [j1] + tail && ([j1] + tail)[1..] == tail;
    var p := Protect(c, s, Encrypted, TAG_87, CONFIGURE_ISDP);
    var q := Protect(c, p.next, MacOnly, TAG_88, metadata);
    var r := ProtectAll(c, q.next, tail);
    assert ProtectAll(c, p.next, [j1] + tail) == Sealed([q.value] + r.values, r.next);
    assert [p.value] + ([q.value] + r.values) == [p.value, q.value] + r.values;
  }

  /** The three groups behind a request TLV, or nothing when the profile's group is past
      the length form; and the session after them. */
  ghost function ContentRun(c: Suite, s: State, isc: Bytes, metadata: Bytes, upp: Bytes): (Option<Bytes>, State)
    requires |metadata| <= MAX_SEGMENT_PLAINTEXT
  {
    ChunksAreProtectable(upp);
    var p := Protect(c, s, Encrypted, TAG_87, CONFIGURE_ISDP);
    var q := Protect(c, p.next, MacOnly, TAG_88, metadata);
    var (g86, next) := ChunkRun(c, q.next, upp);
    if |g86| > MAX_LENGTH then (None, next)
    else
      (Some(isc + Encode(FIRST_87, Encode([TAG_87], p.value)) + Encode(SEQUENCE_88, Encode([TAG_88], q.value)) +
            Encode(SEQUENCE_86, g86)),
       next)
  }

  /** Build's answer for inputs it goes on with, in the order the code comes to it. */
  lemma BuildInTurn(c: Suite, s: State, input: Input, sig: Signature)
    requires input.metadata != [] && input.upp != [] && |input.metadata| <= MAX_SEGMENT_PLAINTEXT
    ensures var isc := Encode(ISC, IscContent(input.transactionId, input.otpkDp, sig));
            var (content, next) := ContentRun(c, s, isc, input.metadata, input.upp);
            Build(c, Some(sig), s, input) ==
            match content
            case None => Built(None, next)
            case Some(inner) => Built(if |inner| > MAX_LENGTH then None else Some(Encode(BPP, inner)), next)
  {
    hide ProtectAll, Chunks, IscContent, IscTbs, Encode, Wrapped, Body, Mac, Advance;
    JobsInTurn(c, s, input.metadata, input.upp);
    ProtectAllSizes(c, s, Jobs(input.metadata, input.upp));
    var isc := Encode(ISC, IscContent(input.transactionId, input.otpkDp, sig));
    var p := Protect(c, s, Encrypted, TAG_87, CONFIGURE_ISDP);
    var q := Protect(c, p.next, MacOnly, TAG_88, input.metadata);
    var g86 := ChunkRun(c, q.next, input.upp).0;
    if |g86| <= MAX_LENGTH {
      LayoutWithoutSecond(isc, Encode([TAG_87], p.value), Encode([TAG_88], q.value), g86);
    }
  }

  lemma LayoutWithoutSecond(isc: Bytes, g87: Bytes, g88: Bytes, g86: Bytes)
    requires |g87| <= MAX_LENGTH && |g88| <= MAX_LENGTH && |g86| <= MAX_LENGTH
    ensures Layout(isc, g87, g88, [], g86) ==
            isc + Encode(FIRST_87, g87) + Encode(SEQUENCE_88, g88) + Encode(SEQUENCE_86, g86)
  {
    hide Encode;
    var front := isc + Encode(FIRST_87, g87) + Encode(SEQUENCE_88, g88);
    assert front + [] == front;
  }

  /** The '87' group: ConfigureISDP, encrypted and MACed. */
  method PutConfigure(c: Suite, s: Scp03t.Session, content: GB.GrowBuf)
    requires s.Valid() && content.Valid() && content.len <= 10_000 && content.buf != s.encCounter
    modifies s`chain, s.encCounter, content, content.buf
    ensures content.Valid() && (content.buf == old(content.buf) || fresh(content.buf))
    ensures content.len <= old(content.len) + 2000
    ensures var p := Protect(c, old(s.Value()), Encrypted, TAG_87, CONFIGURE_ISDP);
            && s.Value() == p.next && |p.value| <= 2000
            && content.Contents() == old(content.Contents()) + Encode(FIRST_87, Encode([TAG_87], p.value))
  {
    hide GB.IsCapacity, GB.GrowBuf.Valid, GB.GrowBuf.Contents, Protect, Encode;
    var buf := new byte[SEGMENT_BUF](_ => 0);
    var n := s.ProtectSegment(c, CONFIGURE_ISDP, TAG_87, buf);
    var value := buf[..n];
    PutGroup(content, 0xA0, TAG_87, value);
  }

  /** The '88' group: the caller's metadata as it stands, MACed only. */
  method PutMetadata(c: Suite, s: Scp03t.Session, metadata: Bytes, content: GB.GrowBuf)
    requires s.Valid() && content.Valid() && content.len <= 10_000 && content.buf != s.encCounter
    requires |metadata| <= MAX_SEGMENT_PLAINTEXT
    modifies s`chain, s.encCounter, content, content.buf
    ensures content.Valid() && (content.buf == old(content.buf) || fresh(content.buf))
    ensures content.len <= old(content.len) + 2000
    ensures var p := Protect(c, old(s.Value()), MacOnly, TAG_88, metadata);
            && s.Value() == p.next && |p.value| <= 2000
            && content.Contents() == old(content.Contents()) + Encode(SEQUENCE_88, Encode([TAG_88], p.value))
  {
    hide GB.IsCapacity, GB.GrowBuf.Valid, GB.GrowBuf.Contents, Protect, Encode;
    var buf := new byte[SEGMENT_BUF](_ => 0);
    var n := s.ProtectMacOnly(c, metadata, TAG_88, buf);
    var value := buf[..n];
    PutGroup(content, 0xA1, TAG_88, value);
  }

  /** smdpSign over the concatenation of section 5.5.1. */
  method SignRequest(signer: Signer, key: Credential, input: Input) returns (sig: Option<Signature>)
    requires signer.Valid()
    modifies signer
    ensures signer.Valid() && sig == old(signer.Answer(key, SignedRequest(input)))
    ensures signer.log == old(signer.log) + [Signed(key, SignedRequest(input), sig)]
  {
    hide GB.IsCapacity, IscTbs;
    var tbs := new GB.GrowBuf();
    BuildIscTbs(tbs, input.transactionId, HOST_ID, input.otpkDp, input.euiccOtpk);
    var toSign := ContentsOf(tbs);
    sig := signer.Sign(key, toSign);
  }

  /** rsp_bpp_build. */
  method BuildPackage(c: Suite, signer: Signer, key: Credential, s: Scp03t.Session, input: Input)
    returns (ret: int, out: array?<byte>, outLen: nat)
    requires signer.Valid()
    requires s.Valid() && |input.upp| <= GB.LIMIT / 2 - 0x1000 && |input.metadata| <= SIZE_MAX
    modifies s`chain, s.encCounter, signer
    ensures signer.Valid()
    ensures var answer := old(signer.Answer(key, SignedRequest(input)));
            var b := Build(c, answer, old(s.Value()), input);
            && signer.log == old(signer.log) + BuildSigns(key, answer, input)
            && s.Value() == b.next && ret == (if b.package.Some? then 0 else -1)
            && (ret == 0 ==> out != null && fresh(out) && outLen <= out.Length && out[..outLen] == b.package.value)
            && (ret != 0 ==> out == null)
  {
    hide GB.IsCapacity, GB.GrowBuf.Valid, GB.GrowBuf.Contents, Build, ChunkRun, Chunks, Protect, Encode, IscTbs;
    hide IscContent, AllProtectable;
    ret, out, outLen := -1, null, 0;
    ghost var answer := signer.Answer(key, SignedRequest(input));
    BuildRefuses(c, answer, s.Value(), input);
    if input.metadata == [] || input.upp == [] {
      return;
    }
    var signed := SignRequest(signer, key, input);
    if signed.None? {
      return;
    }
    var isc := Encode(ISC, IscContent(input.transactionId, input.otpkDp, signed.value));
    IscSize(input.transactionId, input.otpkDp, signed.value);
    var content := new GB.GrowBuf();
    content.Append(isc);
    assert content.Contents() == [] + isc == isc;
    PutConfigure(c, s, content);
    if |input.metadata| > MAX_SEGMENT_PLAINTEXT {
      return;
    }
    BuildInTurn(c, old(s.Value()), input, signed.value);
    var ok, inner := PutRest(c, s, input.metadata, input.upp, content);
    if !ok {
      return;
    }
    ok, out, outLen := Envelop(inner);
    ret := if ok then 0 else -1;
  }

  /** The '88' and '86' groups after the '87'. */
  method PutRest(c: Suite, s: Scp03t.Session, metadata: Bytes, upp: Bytes, content: GB.GrowBuf)
    returns (ok: bool, inner: Bytes)
    requires s.Valid() && content.Valid() && content.len <= 3000 && content.buf != s.encCounter
    requires |metadata| <= MAX_SEGMENT_PLAINTEXT && 0 < |upp| <= GB.LIMIT / 2 - 0x1000
    modifies s`chain, s.encCounter, content, content.buf
    ensures AllProtectable(ChunkJobs(Chunks(upp)))
    ensures var q := Protect(c, old(s.Value()), MacOnly, TAG_88, metadata);
            var (g86, next) := ChunkRun(c, q.next, upp);
            && s.Value() == next && |q.value| <= 2000
            && ok == (|g86| <= MAX_LENGTH)
            && (ok ==> |inner| <= GB.LIMIT - 0x10 &&
                       inner == old(content.Contents()) + Encode(SEQUENCE_88, Encode([TAG_88], q.value)) +
                                Encode(SEQUENCE_86, g86))
  {
    hide GB.IsCapacity, GB.GrowBuf.Valid, GB.GrowBuf.Contents, ChunkRun, Chunks, ChunkJobs, Protect, Encode;
    hide AllProtectable;
    inner := [];
    PutMetadata(c, s, metadata, content);
    var seq86 := new GB.GrowBuf();
    BuildSegments(c, s, upp, seq86);
    var g86 := ContentsOf(seq86);
    ok := PutTlv(content, SEQUENCE_86, g86);
    if ok {
      inner := ContentsOf(content);
    }
  }

  lemma IscSize(transactionId: Block, otpk: Point, sig: Signature)
    ensures |Encode(ISC, IscContent(transactionId, otpk, sig))| == 179
  {
    hide IscContent;
  }

  /** The refusals before anything but the '87' is protected. */
  lemma BuildRefuses(c: Suite, answer: Option<Signature>, s: State, input: Input)
    ensures input.metadata == [] || input.upp == [] || answer.None? ==> Build(c, answer, s, input) == Built(None, s)
    ensures input.metadata != [] && input.upp != [] && answer.Some? && |input.metadata| > MAX_SEGMENT_PLAINTEXT ==>
              Build(c, answer, s, input) == Built(None, Protect(c, s, Encrypted, TAG_87, CONFIGURE_ISDP).next)
  {
    hide Protect;
  }

  /** The outer [54] SEQUENCE around the assembled content. */
  method Envelop(content: Bytes) returns (ok: bool, out: array?<byte>, outLen: nat)
    requires |content| <= GB.LIMIT - 0x10
    ensures ok == (|content| <= MAX_LENGTH)
    ensures ok ==> out != null && fresh(out) && outLen <= out.Length && out[..outLen] == Encode(BPP, content)
    ensures !ok ==> out == null
  {
    hide Encode;
    ok, out, outLen := false, null, 0;
    var g := new GB.GrowBuf();
    ok := PutTlv(g, BPP, content);
    if ok {
      assert [] + Encode(BPP, content) == Encode(BPP, content);
      EncodeNotEmpty(content);
      out, outLen := g.buf, g.len;
    }
  }

  lemma EncodeNotEmpty(content: Bytes)
    requires |content| <= MAX_LENGTH
    ensures Encode(BPP, content) != []
  {
  }
}
