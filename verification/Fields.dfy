/** Cutting the fields of an ES9+ response out of its encoding (the two accessors of
    src/rsp_es9.c): by position, as offsets into the caller's buffer. */
module Fields {
  import opened Octets
  import opened DerLength
  import opened Tlv

  /** A borrowed stretch of the caller's buffer. */
  datatype Slice = Slice(off: nat, len: nat)
  {
    function End(): nat { off + len }
  }

  /** n whole TLVs, one after the other, from `off`, within `end`. */
  function Cuts(buf: Bytes, end: nat, off: nat, n: nat): (r: Option<seq<Slice>>)
    requires end <= |buf|
    ensures r.Some? ==> |r.value| == n
    decreases n
  {
    if n == 0 then Some([])
    else
      match Parse(buf, end, off)
      case None => None
      case Some(c) =>
        match Cuts(buf, end, c.next, n - 1)
        case None => None
        case Some(rest) => Some([Slice(off, c.next - off)] + rest)
  }

  datatype InitiateFields = InitiateFields(
    transactionId: Slice, serverSigned1: Slice, serverSignature1: Slice, euiccCiPkid: Slice, serverCertificate: Slice)

  datatype AuthenticateFields = AuthenticateFields(
    transactionId: Slice, profileMetadata: Slice, smdpSigned2: Slice, smdpSignature2: Slice, smdpCertificate: Slice)

  /** The five members of an InitiateAuthenticationOkEs9: one step into the SEQUENCE. */
  function CutInitiate(resp: Bytes): Option<seq<Slice>> {
    match Parse(resp, |resp|, 0)
    case None => None
    case Some(c) => Cuts(resp, c.next, c.valOff, 5)
  }

  /** The five members of an AuthenticateClientOk: a step into the CHOICE first. */
  function CutAuthenticate(resp: Bytes): Option<seq<Slice>> {
    match Parse(resp, |resp|, 0)
    case None => None
    case Some(choice) =>
      match Parse(resp, choice.next, choice.valOff)
      case None => None
      case Some(c) => Cuts(resp, c.next, c.valOff, 5)
  }

  /** A caller's out-parameter. */
  class Out<T> {
    var value: T

    constructor (v: T)
      ensures value == v
    {
      value := v;
    }
  }

  /** take_field: one field whole, and the offset past it. */
  method TakeField(buf: Bytes, end: nat, off: nat) returns (ok: bool, field: Slice, next: nat)
    requires end <= |buf|
    ensures ok == Parse(buf, end, off).Some?
    ensures ok ==> next == Parse(buf, end, off).value.next && field == Slice(off, next - off)
  {
    var cut;
    ok, cut := ParseTlv(buf, end, off);
    field, next := Slice(0, 0), off;
    if ok {
      field, next := Slice(off, cut.next - off), cut.next;
    }
  }

  /** The shared walk of both accessors: five fields in a row, or none. */
  method TakeFive(buf: Bytes, end: nat, start: nat) returns (ok: bool, f: seq<Slice>)
    requires end <= |buf|
    ensures ok == Cuts(buf, end, start, 5).Some?
    ensures ok ==> Cuts(buf, end, start, 5) == Some(f)
  {
    hide Parse;
    f := [];
    var off, i := start, 0;
    assert Cuts(buf, end, start, 5).Some? ==> [] + Cuts(buf, end, start, 5).value == Cuts(buf, end, start, 5).value;
    while i < 5
      invariant 0 <= i <= 5 && |f| == i
      invariant Cuts(buf, end, start, 5) ==
                match Cuts(buf, end, off, 5 - i) case None => None case Some(rest) => Some(f + rest)
    {
      var field, next;
      ok, field, next := TakeField(buf, end, off);
      if !ok {
        return false, [];
      }
      ghost var tail := Cuts(buf, end, next, 4 - i);
      if tail.Some? {
        assert f + ([field] + tail.value) == f + [field] + tail.value;
      }
      f := f + [field];
      off := next;
      i := i + 1;
    }
    assert f + [] == f;
    return true, f;
  }

  /** rsp_dp_initiate_fields: the caller's structure is written only on success. */
  method GetInitiateFields(resp: Bytes, out: Out<InitiateFields>) returns (ret: int)
    modifies out
    ensures ret == if CutInitiate(resp).Some? then 0 else -1
    ensures ret == 0 ==>
              var f := CutInitiate(resp).value;
              out.value == InitiateFields(f[0], f[1], f[2], f[3], f[4])
    ensures ret != 0 ==> out.value == old(out.value)
  {
    hide Parse, Cuts;
    var ok, cut := ParseTlv(resp, |resp|, 0);
    if !ok {
      return -1;
    }
    var f;
    ok, f := TakeFive(resp, cut.valOff + cut.valLen, cut.valOff);
    if !ok {
      return -1;
    }
    out.value := InitiateFields(f[0], f[1], f[2], f[3], f[4]);
    return 0;
  }

  /** rsp_dp_authenticate_fields. */
  method GetAuthenticateFields(resp: Bytes, out: Out<AuthenticateFields>) returns (ret: int)
    modifies out
    ensures ret == if CutAuthenticate(resp).Some? then 0 else -1
    ensures ret == 0 ==>
              var f := CutAuthenticate(resp).value;
              out.value == AuthenticateFields(f[0], f[1], f[2], f[3], f[4])
    ensures ret != 0 ==> out.value == old(out.value)
  {
    hide Parse, Cuts;
    var ok, cut := ParseTlv(resp, |resp|, 0);
    if !ok {
      return -1;
    }
    ok, cut := ParseTlv(resp, cut.valOff + cut.valLen, cut.valOff);
    if !ok {
      return -1;
    }
    var f;
    ok, f := TakeFive(resp, cut.valOff + cut.valLen, cut.valOff);
    if !ok {
      return -1;
    }
    out.value := AuthenticateFields(f[0], f[1], f[2], f[3], f[4]);
    return 0;
  }

  // ---- the cuts are exact ----

  /** Slices end to end from `off` within `end`, each exactly one TLV. */
  ghost predicate SideBySide(buf: Bytes, end: nat, off: nat, f: seq<Slice>)
    requires end <= |buf|
    decreases |f|
  {
    f != [] ==>
      && f[0].off == off && f[0].End() <= end
      && Parse(buf, f[0].End(), off).Some? && Parse(buf, f[0].End(), off).value.next == f[0].End()
      && SideBySide(buf, end, f[0].End(), f[1..])
  }

  /** The cuts lie end to end inside the enclosing value, each exactly one TLV, and put back
      together they are the octets they were cut from. */
  lemma {:induction false} CutsAreContiguous(buf: Bytes, end: nat, off: nat, n: nat)
    requires off <= end <= |buf|
    requires Cuts(buf, end, off, n).Some?
    ensures var f := Cuts(buf, end, off, n).value;
            var last := if n == 0 then off else f[n - 1].End();
            && SideBySide(buf, end, off, f)
            && off <= last <= end
            && Concat(Extracts(buf, f)) == buf[off..last]
    decreases n
  {
    hide Parse;
    if n > 0 {
      var c := Parse(buf, end, off).value;
      ParseTruncated(buf, end, off, c.next);
      CutsAreContiguous(buf, end, c.next, n - 1);
      var f, g := Cuts(buf, end, off, n).value, Cuts(buf, end, c.next, n - 1).value;
      assert f[1..] == g;
      var last := if n == 1 then c.next else g[n - 2].End();
      Adjoin(buf, off, c.next, last);
    }
  }

  lemma Adjoin(buf: Bytes, i: nat, j: nat, k: nat)
    requires i <= j <= k <= |buf|
    ensures buf[i..j] + buf[j..k] == buf[i..k]
  {
  }

  function Extracts(buf: Bytes, f: seq<Slice>): (r: seq<Bytes>)
    ensures |r| == |f|
  {
    if f == [] then []
    else [if f[0].End() <= |buf| then buf[f[0].off..f[0].End()] else []] + Extracts(buf, f[1..])
  }

  /** A response filled by one outer TLV is refused under every truncation. */
  lemma TruncatedIsRefused(resp: Bytes, m: nat)
    requires Parse(resp, |resp|, 0).Some? && Parse(resp, |resp|, 0).value.next == |resp|
    requires m < |resp|
    ensures CutInitiate(resp[..m]).None? && CutAuthenticate(resp[..m]).None?
  {
    hide Cuts;
    ParseTruncated(resp, |resp|, 0, m);
    ParseInPrefix(resp, m, 0);
  }

  // ---- and they invert the printer ----

  datatype Part = Part(tag: Bytes, content: Bytes)

  ghost predicate Printable(parts: seq<Part>) {
    forall i :: 0 <= i < |parts| ==> WellFormedTag(parts[i].tag) && |parts[i].content| <= MAX_LENGTH
  }

  function Print(parts: seq<Part>): Bytes
    requires Printable(parts)
  {
    if parts == [] then [] else Encode(parts[0].tag, parts[0].content) + Print(parts[1..])
  }

  /** Where printed parts lie when the first starts at `off`. */
  function Places(off: nat, parts: seq<Part>): (r: seq<Slice>)
    requires Printable(parts)
    ensures |r| == |parts|
    decreases |parts|
  {
    if parts == [] then []
    else
      var size := |Encode(parts[0].tag, parts[0].content)|;
      [Slice(off, size)] + Places(off + size, parts[1..])
  }

  lemma {:induction false} CutsOfPrinted(buf: Bytes, end: nat, off: nat, parts: seq<Part>, rest: Bytes)
    requires off <= end <= |buf| && Printable(parts)
    requires buf[off..end] == Print(parts) + rest
    ensures Cuts(buf, end, off, |parts|) == Some(Places(off, parts))
    decreases |parts|
  {
    hide Encode, Parse;
    if parts != [] {
      var e := Encode(parts[0].tag, parts[0].content);
      var next := off + |e|;
      assert buf[off..end] == e + (Print(parts[1..]) + rest);
      ParsePrintedAt(buf, end, off, parts[0].tag, parts[0].content, Print(parts[1..]) + rest);
      SliceOfSlice(buf, off, end, |e|, end - off);
      assert buf[next..end] == Print(parts[1..]) + rest;
      CutsOfPrinted(buf, end, next, parts[1..], rest);
    }
  }

  /** One printed TLV inside a buffer: the cut, and the content where the cut says. */
  lemma ParsePrintedAt(buf: Bytes, end: nat, off: nat, tag: Bytes, content: Bytes, rest: Bytes)
    requires off <= end <= |buf| && WellFormedTag(tag) && |content| <= MAX_LENGTH
    requires buf[off..end] == Encode(tag, content) + rest
    ensures var next := off + |Encode(tag, content)|;
            && Parse(buf, end, off) == Some(Cut(next - |content|, |content|, next))
            && next - |content| > off && next <= end && buf[next - |content|..next] == content
  {
    ReadEncoded(tag, content, rest);
    var e := Encode(tag, content);
    SliceOfSlice(buf, off, end, |e| - |content|, |e|);
    assert (e + rest)[|e| - |content|..|e|] == content;
  }

  /** A SEQUENCE printed at `off`: where its value lies, and the members in it. */
  lemma SequenceCuts(buf: Bytes, end: nat, off: nat, outer: Bytes, parts: seq<Part>, rest: Bytes, after: Bytes)
    requires off <= end <= |buf| && WellFormedTag(outer) && Printable(parts)
    requires |Print(parts) + rest| <= MAX_LENGTH
    requires buf[off..end] == Encode(outer, Print(parts) + rest) + after
    ensures var content := Print(parts) + rest;
            var next := off + |Encode(outer, content)|;
            && next - |content| >= 0 && next <= end
            && Parse(buf, end, off) == Some(Cut(next - |content|, |content|, next))
            && Cuts(buf, next, next - |content|, |parts|) == Some(Places(next - |content|, parts))
  {
    hide Cuts, Encode, Parse, Print, Places;
    var content := Print(parts) + rest;
    ParsePrintedAt(buf, end, off, outer, content, after);
    var next := off + |Encode(outer, content)|;
    CutsOfPrinted(buf, next, next - |content|, parts, rest);
  }

  /** Cutting a printed response gives back each printed member, although two of them share
      a tag, and whatever follows inside or outside the SEQUENCE. */
  lemma InitiateCutsPrinted(outer: Bytes, parts: seq<Part>, rest: Bytes, after: Bytes)
    requires WellFormedTag(outer) && Printable(parts) && |parts| == 5
    requires |Print(parts) + rest| <= MAX_LENGTH
    ensures var e := Encode(outer, Print(parts) + rest);
            CutInitiate(e + after) == Some(Places(|e| - |Print(parts) + rest|, parts))
  {
    hide Cuts, Encode, Parse, Print, Places;
    var resp := Encode(outer, Print(parts) + rest) + after;
    assert resp[0..|resp|] == resp;
    SequenceCuts(resp, |resp|, 0, outer, parts, rest, after);
  }

  /** The same through the extra step into the CHOICE. */
  lemma AuthenticateCutsPrinted(choice: Bytes, outer: Bytes, parts: seq<Part>, rest: Bytes, beside: Bytes, after: Bytes)
    requires WellFormedTag(choice) && WellFormedTag(outer) && Printable(parts) && |parts| == 5
    requires |Print(parts) + rest| <= MAX_LENGTH
    requires |Encode(outer, Print(parts) + rest) + beside| <= MAX_LENGTH
    ensures var inner := Encode(outer, Print(parts) + rest);
            var e := Encode(choice, inner + beside);
            CutAuthenticate(e + after) ==
            Some(Places(|e| - |inner + beside| + |inner| - |Print(parts) + rest|, parts))
  {
    hide Cuts, Encode, Parse, Print, Places;
    var value := Encode(outer, Print(parts) + rest) + beside;
    var e := Encode(choice, value);
    var resp := e + after;
    assert resp[0..|resp|] == resp;
    ParsePrintedAt(resp, |resp|, 0, choice, value, after);
    SequenceCuts(resp, |e|, |e| - |value|, outer, parts, rest, beside);
  }

  lemma ParseInPrefix(buf: Bytes, end: nat, off: nat)
    requires end <= |buf|
    ensures Parse(buf, end, off) == Parse(buf[..end], end, off)
  {
    if off < end {
      assert buf[..end][off..end] == buf[off..end];
    }
  }
}
