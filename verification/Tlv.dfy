/** Tag-length-value encoding: the X.690 header reader behind every walker, the printer
    used for hand-written TLVs, and the two kinds of walker the library has over
    received bytes. */
module Tlv {
  import opened Octets
  import opened DerLength

  /** A tag without its constructed bit: class 0..3 and number, the packed form that
      src/rsp_bpp.c compares. */
  datatype Tag = Tag(cls: nat, number: nat)

  const CONTEXT: nat := 2

  /** One TLV found at the front of a buffer: its tag, the sizes of its tag and length
      fields, and the size of its content. */
  datatype Tlv = Tlv(tag: Tag, tagSize: nat, lengthSize: nat, length: nat)
  {
    function HeaderSize(): nat { tagSize + lengthSize }
    function Size(): nat { tagSize + lengthSize + length }
  }

  /** The subsequent octets of a high-tag-number field (section 8.1.2.4 of X.690): the
      number read so far grows by seven bits per octet, up to the first octet whose top
      bit is clear. Returns the number and how many octets it took. */
  function TagTail(p: Bytes, acc: nat): Option<(nat, nat)> {
    if p == [] then None
    else if p[0] >= 0x80 then
      match TagTail(p[1..], acc * 128 + (p[0] - 0x80))
      case Some((n, k)) => Some((n, k + 1))
      case None => None
    else Some((acc * 128 + p[0], 1))
  }

  function FetchTag(p: Bytes): Option<(Tag, nat)> {
    if p == [] then None
    else if p[0] % 32 != 31 then Some((Tag(p[0] / 64, p[0] % 32), 1))
    else
      match TagTail(p[1..], 0)
      case Some((n, k)) => Some((Tag(p[0] / 64, n), 1 + k))
      case None => None
  }

  /** Read the TLV at the front of p; refused unless it lies wholly inside p. */
  function ReadTlv(p: Bytes): (r: Option<Tlv>)
    ensures r.Some? ==> r.value.tagSize >= 1 && r.value.lengthSize >= 1 && r.value.Size() <= |p|
  {
    match FetchTag(p)
    case None => None
    case Some((tag, tl)) =>
      FetchTagBound(p);
      match FetchLength(p[tl..])
      case None => None
      case Some((n, ll)) =>
        if tl + ll + n <= |p| then Some(Tlv(tag, tl, ll, n)) else None
  }

  function Value(p: Bytes, t: Tlv): Bytes
    requires t.Size() <= |p|
  {
    p[t.HeaderSize()..t.Size()]
  }

  lemma {:induction false} TagTailBound(p: Bytes, acc: nat)
    ensures TagTail(p, acc).Some? ==> 1 <= TagTail(p, acc).value.1 <= |p|
  {
    if p != [] && p[0] >= 0x80 {
      TagTailBound(p[1..], acc * 128 + (p[0] - 0x80));
    }
  }

  lemma FetchTagBound(p: Bytes)
    ensures FetchTag(p).Some? ==> 1 <= FetchTag(p).value.1 <= |p|
  {
    if p != [] {
      TagTailBound(p[1..], 0);
    }
  }

  // ---- truncation: a reader sees only the octets of its own TLV ----

  lemma {:induction false} TagTailTruncated(p: Bytes, acc: nat, m: nat)
    requires m <= |p|
    ensures TagTail(p[..m], acc) ==
            match TagTail(p, acc)
            case Some((n, k)) => if k <= m then Some((n, k)) else None
            case None => None
  {
    TagTailBound(p, acc);
    if m > 0 && p[0] >= 0x80 {
      assert p[..m][1..] == p[1..][..m - 1];
      TagTailTruncated(p[1..], acc * 128 + (p[0] - 0x80), m - 1);
    }
  }

  lemma FetchTagTruncated(p: Bytes, m: nat)
    requires m <= |p|
    ensures FetchTag(p[..m]) ==
            match FetchTag(p)
            case Some((t, k)) => if k <= m then Some((t, k)) else None
            case None => None
  {
    FetchTagBound(p);
    if m > 0 && p[0] % 32 == 31 {
      assert p[..m][1..] == p[1..][..m - 1];
      TagTailTruncated(p[1..], 0, m - 1);
    }
  }

  /** Cutting a buffer changes nothing as long as the first TLV is still whole, and makes
      the reader refuse as soon as it is not. */
  lemma ReadTlvTruncated(p: Bytes, m: nat)
    requires m <= |p|
    ensures ReadTlv(p[..m]) ==
            match ReadTlv(p)
            case Some(t) => if t.Size() <= m then Some(t) else None
            case None => None
  {
    FetchTagTruncated(p, m);
    FetchTagBound(p);
    match FetchTag(p)
    case None =>
    case Some((_, tl)) =>
      if tl <= m {
        assert p[..m][tl..] == p[tl..][..m - tl];
        FetchLengthTruncated(p[tl..], m - tl);
      }
  }

  // ---- the printer ----

  /** A complete identifier field: one octet for numbers below 31, else a marker octet,
      continuation octets with the top bit set, and a last one with it clear. */
  predicate WellFormedTag(t: Bytes) {
    if |t| <= 1 then |t| == 1 && t[0] % 32 != 31
    else t[0] % 32 == 31 && t[|t| - 1] < 0x80 && forall i :: 1 <= i < |t| - 1 ==> t[i] >= 0x80
  }

  /** put_tlv_tag: tag as given, minimal length, content. */
  function Encode(tag: Bytes, content: Bytes): (r: Bytes)
    requires |content| <= MAX_LENGTH
    ensures |r| == |tag| + |LengthOctets(|content|)| + |content|
  {
    tag + LengthOctets(|content|) + content
  }

  lemma {:induction false} TagTailWellFormed(t: Bytes, acc: nat, rest: Bytes)
    requires |t| >= 1 && t[|t| - 1] < 0x80 && forall i :: 0 <= i < |t| - 1 ==> t[i] >= 0x80
    ensures TagTail(t, acc).Some? && TagTail(t, acc).value.1 == |t|
    ensures TagTail(t + rest, acc) == TagTail(t, acc)
  {
    assert (t + rest)[0] == t[0];
    if |t| > 1 {
      assert t[0] >= 0x80;
      assert (t + rest)[1..] == t[1..] + rest;
      assert forall i :: 0 <= i < |t[1..]| - 1 ==> t[1..][i] == t[i + 1];
      TagTailWellFormed(t[1..], acc * 128 + (t[0] - 0x80), rest);
    }
  }

  lemma FetchWellFormedTag(t: Bytes, rest: Bytes)
    requires WellFormedTag(t)
    ensures FetchTag(t).Some? && FetchTag(t).value.1 == |t|
    ensures FetchTag(t + rest) == FetchTag(t)
  {
    assert (t + rest)[0] == t[0];
    if |t| > 1 {
      assert (t + rest)[1..] == t[1..] + rest;
      assert forall i :: 0 <= i < |t[1..]| - 1 ==> t[1..][i] == t[i + 1];
      TagTailWellFormed(t[1..], 0, rest);
    }
  }

  function TagOf(t: Bytes): Tag
    requires WellFormedTag(t)
  {
    FetchWellFormedTag(t, []);
    FetchTag(t).value.0
  }

  /** What the printer writes, the reader reads back, whatever follows. */
  lemma ReadEncoded(tag: Bytes, content: Bytes, rest: Bytes)
    requires WellFormedTag(tag) && |content| <= MAX_LENGTH
    ensures ReadTlv(Encode(tag, content) + rest) ==
            Some(Tlv(TagOf(tag), |tag|, |LengthOctets(|content|)|, |content|))
    ensures var p := Encode(tag, content) + rest;
            Value(p, ReadTlv(p).value) == content && p[ReadTlv(p).value.Size()..] == rest
  {
    var o := LengthOctets(|content|);
    var p := Encode(tag, content) + rest;
    assert p == tag + (o + (content + rest));
    FetchWellFormedTag(tag, o + (content + rest));
    FetchEncodedLength(|content|, content + rest);
    assert p[|tag|..] == o + (content + rest);
  }

  // ---- a TLV spelled out, without a reader ----

  /** t is a complete identifier field, a definite length field, minimal or not, and as much
      content as that says. */
  predicate Spells(t: Bytes, tag: Bytes, length: Bytes, content: Bytes) {
    WellFormedTag(tag) && IsDefiniteForm(length, |content|) && t == tag + length + content
  }

  lemma {:induction false} TagTailShape(p: Bytes, acc: nat)
    requires TagTail(p, acc).Some?
    ensures var k := TagTail(p, acc).value.1;
            1 <= k <= |p| && p[k - 1] < 0x80 && forall i :: 0 <= i < k - 1 ==> p[i] >= 0x80
  {
    if p[0] >= 0x80 {
      TagTailShape(p[1..], acc * 128 + (p[0] - 0x80));
    }
  }

  lemma FetchedTagIsWellFormed(p: Bytes)
    requires FetchTag(p).Some?
    ensures var (tag, k) := FetchTag(p).value;
            k <= |p| && WellFormedTag(p[..k]) && TagOf(p[..k]) == tag
  {
    FetchTagBound(p);
    var k := FetchTag(p).value.1;
    if p[0] % 32 == 31 {
      TagTailShape(p[1..], 0);
      assert forall i :: 1 <= i < k ==> p[..k][i] == p[1..][i - 1];
    }
    FetchTagTruncated(p, k);
  }

  /** The reader finds any TLV spelled out at the front, whatever follows. */
  lemma SpelledIsRead(t: Bytes, tag: Bytes, length: Bytes, content: Bytes, rest: Bytes)
    requires Spells(t, tag, length, content)
    ensures ReadTlv(t + rest) == Some(Tlv(TagOf(tag), |tag|, |length|, |content|))
    ensures Value(t + rest, ReadTlv(t + rest).value) == content && (t + rest)[|t|..] == rest
  {
    var after := content + rest;
    assert t + rest == tag + (length + after);
    FetchWellFormedTag(tag, length + after);
    assert (t + rest)[|tag|..] == length + after;
    assert (length + after)[..|length|] == length;
    FetchLengthReadsDefiniteForms(length + after, |content|, |length|);
  }

  /** And what it finds is spelled out there. */
  lemma ReadIsSpelled(p: Bytes)
    requires ReadTlv(p).Some?
    ensures var t := ReadTlv(p).value;
            var tag, length := p[..t.tagSize], p[t.tagSize..t.HeaderSize()];
            Spells(p[..t.Size()], tag, length, Value(p, t)) && TagOf(tag) == t.tag
  {
    var t := ReadTlv(p).value;
    FetchedTagIsWellFormed(p);
    FetchLengthReadsDefiniteForms(p[t.tagSize..], t.length, t.lengthSize);
    assert p[t.tagSize..][..t.lengthSize] == p[t.tagSize..t.HeaderSize()];
    assert p[..t.tagSize] + p[t.tagSize..t.HeaderSize()] == p[..t.HeaderSize()];
    assert p[..t.HeaderSize()] + Value(p, t) == p[..t.Size()];
  }

  /** Two TLVs printed under one tag, each followed by anything, agree only if the
      contents and what follows agree: a printed TLV is self-delimiting. */
  lemma EncodeSelfDelimiting(tag: Bytes, a: Bytes, x: Bytes, b: Bytes, y: Bytes)
    requires |a| <= MAX_LENGTH && |b| <= MAX_LENGTH
    requires Encode(tag, a) + x == Encode(tag, b) + y
    ensures a == b && x == y
  {
    var p, q := Encode(tag, a) + x, Encode(tag, b) + y;
    assert p[|tag|..] == LengthOctets(|a|) + (a + x);
    assert q[|tag|..] == LengthOctets(|b|) + (b + y);
    LengthOctetsInjective(|a|, a + x, |b|, b + y);
    assert (a + x)[..|a|] == a && (b + y)[..|b|] == b;
    assert (a + x)[|a|..] == x && (b + y)[|b|..] == y;
  }

  // ---- parse_tlv, the hand-written walker of src/rsp_es9.c ----

  /** Where a TLV's value starts, how long it is, and where the next TLV begins. */
  datatype Cut = Cut(valOff: nat, valLen: nat, next: nat)

  /** parse_tlv's answer, in terms of the X.690 reader: the TLV at `off`, bounded by
      `end`, refused when its length field counts more than eight octets. */
  function Parse(buf: Bytes, end: nat, off: nat): (r: Option<Cut>)
    requires end <= |buf|
    ensures r.Some? ==> off < r.value.valOff <= r.value.valOff + r.value.valLen == r.value.next <= end
  {
    if off >= end then None
    else
      match ReadTlv(buf[off..end])
      case Some(t) =>
        if t.lengthSize <= 9 then Some(Cut(off + t.HeaderSize(), t.length, off + t.Size())) else None
      case None => None
  }

  /** A successful cut ends at e: every bound from e up gives the same cut, and every
      bound below e is refused. */
  lemma ParseTruncated(buf: Bytes, end: nat, off: nat, bound: nat)
    requires bound <= end <= |buf|
    ensures Parse(buf, bound, off) ==
            match Parse(buf, end, off)
            case Some(c) => if c.next <= bound then Some(c) else None
            case None => None
  {
    if off < bound {
      assert buf[off..bound] == buf[off..end][..bound - off];
      ReadTlvTruncated(buf[off..end], bound - off);
    }
  }

  /** parse_tlv at any offset, whatever precedes and follows: a TLV spelled out there is cut
      exactly, if its length field counts at most eight octets, and refused if more. */
  lemma ParseSpelled(before: Bytes, t: Bytes, tag: Bytes, length: Bytes, content: Bytes, rest: Bytes)
    requires Spells(t, tag, length, content)
    ensures Parse(before + t + rest, |before + t + rest|, |before|) ==
            if |length| <= 1 + 8 then Some(Cut(|before| + |tag| + |length|, |content|, |before| + |t|)) else None
  {
    hide ReadTlv;
    var buf := before + t + rest;
    assert buf[|before|..|buf|] == t + rest;
    SpelledIsRead(t, tag, length, content, rest);
  }

  /** So it inverts the printer, for short, high and multi-octet tags. */
  lemma ParseEncoded(before: Bytes, tag: Bytes, content: Bytes, rest: Bytes)
    requires WellFormedTag(tag) && |content| <= MAX_LENGTH
    ensures var e := Encode(tag, content);
            Parse(before + e + rest, |before + e + rest|, |before|) ==
            Some(Cut(|before| + |e| - |content|, |content|, |before| + |e|))
  {
    LengthOctetsDefinite(|content|);
    ParseSpelled(before, Encode(tag, content), tag, LengthOctets(|content|), content, rest);
  }

  /** The tag scan of parse_tlv stops where the X.690 tag does. */
  lemma {:induction false} TagTailScan(p: Bytes, acc: nat, k: nat)
    requires k <= |p| && forall i :: 0 <= i < k ==> p[i] >= 0x80
    ensures k == |p| ==> TagTail(p, acc).None?
    ensures k < |p| && p[k] < 0x80 ==> TagTail(p, acc).Some? && TagTail(p, acc).value.1 == k + 1
  {
    if k > 0 {
      assert forall i :: 0 <= i < k - 1 ==> p[1..][i] == p[i + 1];
      TagTailScan(p[1..], acc * 128 + (p[0] - 0x80), k - 1);
    }
  }

  /** The tag scan of parse_tlv: where the length field must begin, unless the buffer
      runs out first. */
  method ScanTag(buf: Bytes, end: nat, off: nat) returns (ok: bool, p: nat)
    requires off < end <= |buf|
    ensures ok ==> off < p < end
    ensures ok ==> FetchTag(buf[off..end]).Some? && FetchTag(buf[off..end]).value.1 == p - off
    ensures !ok ==> Parse(buf, end, off).None?
  {
    p := off;
    ghost var q := buf[off..end];
    if buf[p] % 32 == 31 {
      p := p + 1;
      while p < end && buf[p] >= 0x80
        invariant off + 1 <= p <= end
        invariant forall i :: off + 1 <= i < p ==> buf[i] >= 0x80
      {
        p := p + 1;
      }
      assert forall i :: 0 <= i < p - off - 1 ==> q[1..][i] == buf[off + 1 + i];
      TagTailScan(q[1..], 0, p - off - 1);
      if p >= end {
        return false, p;
      }
    }
    p := p + 1;
    ok := p < end;
  }

  /** The length loop of parse_tlv, over the n octets at p. The accumulator is a size_t;
      with at most eight octets its shift never drops a bit. */
  method AccumulateLength(buf: Bytes, p: nat, n: nat) returns (len: nat)
    requires n <= 8 && p + n <= |buf|
    ensures len == BeNat(buf[p..p + n])
  {
    len := 0;
    var i := 0;
    while i < n
      invariant 0 <= i <= n
      invariant len == BeNat(buf[p..p + i]) < Pow256(i)
    {
      assert buf[p..p + i + 1][..i] == buf[p..p + i];
      Pow256Monotone(i, 7);
      Pow256Values();
      len := len * 256 % (SIZE_MAX + 1) + buf[p + i];
      i := i + 1;
    }
  }

  /** With the tag known to end at p, parse_tlv's answer hangs on the length field alone. */
  lemma ParseAfterTag(buf: Bytes, end: nat, off: nat, p: nat)
    requires off < p < end <= |buf|
    requires FetchTag(buf[off..end]).Some? && FetchTag(buf[off..end]).value.1 == p - off
    ensures Parse(buf, end, off) ==
            match FetchLength(buf[p..end])
            case Some((n, k)) =>
              if k <= 9 && p + k + n <= end then Some(Cut(p + k, n, p + k + n)) else None
            case None => None
  {
    SliceOfSlice(buf, off, end, p - off, end - off);
  }

  lemma FetchLongLength(buf: Bytes, end: nat, p: nat)
    requires p < end <= |buf| && buf[p] >= 0x80
    ensures var n := buf[p] % 128;
            FetchLength(buf[p..end]) ==
            if n == 0 || n == 127 || p + 1 + n > end then None
            else Some((BeNat(buf[p + 1..p + 1 + n]), 1 + n))
  {
    hide BeNat;
    var n := buf[p] % 128;
    assert buf[p..end][0] == buf[p] && n == buf[p] - 0x80;
    if p + 1 + n <= end {
      SliceOfSlice(buf, p, end, 1, 1 + n);
    }
  }

  /** The length field of parse_tlv at p: its value and where it ends, refused when it is not
      whole, indefinite, or counts more than eight octets. */
  method ReadLength(buf: Bytes, end: nat, p: nat) returns (ok: bool, len: nat, next: nat)
    requires p < end <= |buf|
    ensures ok <==> FetchLength(buf[p..end]).Some? && FetchLength(buf[p..end]).value.1 <= 9
    ensures ok ==> next <= end && FetchLength(buf[p..end]) == Some((len, next - p))
  {
    hide BeNat;
    len, next := 0, p;
    if buf[p] < 0x80 {
      return true, buf[p], p + 1;
    }
    FetchLongLength(buf, end, p);
    var n := buf[p] % 128;
    if n == 0 || n > 8 || n > end - (p + 1) {
      return false, len, next;
    }
    len := AccumulateLength(buf, p + 1, n);
    return true, len, p + 1 + n;
  }

  /** parse_tlv: the tag scan, the length field, then the bound check. */
  method ParseTlv(buf: Bytes, end: nat, off: nat) returns (ok: bool, cut: Cut)
    requires end <= |buf|
    ensures ok == Parse(buf, end, off).Some?
    ensures ok ==> cut == Parse(buf, end, off).value
  {
    cut := Cut(0, 0, 0);
    if off >= end {
      return false, cut;
    }
    hide Parse, FetchTag, FetchLength;
    var p, len, next;
    ok, p := ScanTag(buf, end, off);
    if !ok {
      return false, cut;
    }
    ParseAfterTag(buf, end, off, p);
    ok, len, next := ReadLength(buf, end, p);
    if !ok || len > end - next {
      return false, cut;
    }
    return true, Cut(next, len, next + len);
  }

  // ---- find_tlv and step_tlv ----

  /** find_tlv: the size of the whole TLV at `off`, provided its identifier octets are
      exactly `want`. */
  function FindTlv(buf: Bytes, off: nat, want: Bytes): (r: Option<Tlv>)
    ensures r.Some? ==> off + r.value.Size() <= |buf|
  {
    if off > |buf| then None
    else
      match ReadTlv(buf[off..])
      case Some(t) => if buf[off..off + t.tagSize] == want then Some(t) else None
      case None => None
  }

  /** step_tlv: the TLV at `off` bounded by `end`, whatever its tag. */
  function StepTlv(buf: Bytes, end: nat, off: nat): (r: Option<Tlv>)
    requires end <= |buf|
    ensures r.Some? ==> off + r.value.Size() <= end
  {
    if off >= end then None else ReadTlv(buf[off..end])
  }
}
