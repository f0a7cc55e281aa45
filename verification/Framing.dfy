/** The package's grammar, stated without a reader: which byte strings rsp_bpp_recover finds
    complete, which elements it finds in them, and what it passes over. */
module Framing {
  import opened Octets
  import opened DerLength
  import opened Tlv
  import opened Channel
  import opened Cipher
  import opened Package

  /** `t` is exactly one context-class TLV, numbered `number`, with this value; its length
      field may be any definite form, and its constructed bit is not looked at. */
  ghost predicate IsTlv(t: Bytes, number: nat, value: Bytes) {
    exists tag, length :: Spells(t, tag, length, value) && TagOf(tag) == Tag(CONTEXT, number)
  }

  ghost predicate IsAnyTlv(t: Bytes, number: nat) {
    exists value :: IsTlv(t, number, value)
  }

  /** A string starts with a TLV exactly when it splits into that TLV and the rest. */
  lemma GroupSplits(t: Bytes, number: nat, value: Bytes, rest: Bytes)
    requires IsTlv(t, number, value)
    ensures Group(t + rest, number) == Some((value, rest))
    ensures forall other :: other != number ==> Group(t + rest, other).None?
  {
    hide ReadTlv;
    var tag, length :| Spells(t, tag, length, value) && TagOf(tag) == Tag(CONTEXT, number);
    SpelledIsRead(t, tag, length, value, rest);
  }

  lemma GroupFinds(p: Bytes, number: nat) returns (t: Bytes)
    requires Group(p, number).Some?
    ensures IsTlv(t, number, Group(p, number).value.0) && p == t + Group(p, number).value.1
  {
    hide ReadTlv, Spells;
    t := p[..ReadTlv(p).value.Size()];
    ReadIsSpelled(p);
  }

  /** A run of TLVs with these values. */
  ghost predicate AreTlvs(ts: seq<Bytes>, number: nat, values: seq<Bytes>) {
    |ts| == |values| && forall i :: 0 <= i < |ts| ==> IsTlv(ts[i], number, values[i])
  }

  lemma {:induction false} RunIsScanned(ts: seq<Bytes>, number: nat, values: seq<Bytes>, mode: Mode, tag: byte)
    requires AreTlvs(ts, number, values)
    ensures ScanGroup(Concat(ts), number, mode, tag) == Scanned(Elements(mode, tag, values), true)
  {
    hide IsTlv, Group;
    if ts != [] {
      GroupSplits(ts[0], number, values[0], Concat(ts[1..]));
      TlvIsNotEmpty(ts[0], number, values[0]);
      RunIsScanned(ts[1..], number, values[1..], mode, tag);
    }
  }

  lemma TlvIsNotEmpty(t: Bytes, number: nat, value: Bytes)
    requires IsTlv(t, number, value)
    ensures t != []
  {
    var tag, length :| Spells(t, tag, length, value);
  }

  lemma {:induction false} ScannedIsRun(w: Bytes, number: nat, mode: Mode, tag: byte)
    returns (ts: seq<Bytes>, values: seq<Bytes>)
    requires ScanGroup(w, number, mode, tag).complete
    ensures AreTlvs(ts, number, values) && w == Concat(ts)
    ensures ScanGroup(w, number, mode, tag).elements == Elements(mode, tag, values)
    decreases |w|
  {
    hide IsTlv, Group;
    ts, values := [], [];
    if w != [] {
      var (value, rest) := Group(w, number).value;
      var t := GroupFinds(w, number);
      GroupShrinks(w, number);
      var ts', values' := ScannedIsRun(rest, number, mode, tag);
      ts, values := [t] + ts', [value] + values';
      assert ts[1..] == ts' && values[1..] == values';
      assert Concat(ts) == t + Concat(ts');
      assert Elements(mode, tag, values) == [Element(mode, tag, value)] + Elements(mode, tag, values');
    }
  }

  lemma GroupShrinks(w: Bytes, number: nat)
    requires Group(w, number).Some?
    ensures |Group(w, number).value.1| < |w|
  {
  }

  /** The pieces of a package: five TLVs inside one, the fourth optional, and the TLVs of
      the three verified groups with their values. */
  datatype Pieces = Pieces(
    request: Bytes, first: Bytes, metadata: Bytes, second: Bytes, profile: Bytes,
    t87: seq<Bytes>, v87: seq<Bytes>, t88: seq<Bytes>, v88: seq<Bytes>, t86: seq<Bytes>, v86: seq<Bytes>)

  ghost predicate FramedAs(b: Bytes, p: Pieces) {
    && IsTlv(b, 54, p.request + p.first + p.metadata + p.second + p.profile)
    && IsAnyTlv(p.request, 35)
    && IsTlv(p.first, 0, Concat(p.t87)) && AreTlvs(p.t87, 7, p.v87)
    && IsTlv(p.metadata, 1, Concat(p.t88)) && AreTlvs(p.t88, 8, p.v88)
    && (p.second == [] || IsAnyTlv(p.second, 2))
    && IsTlv(p.profile, 3, Concat(p.t86)) && AreTlvs(p.t86, 6, p.v86) && p.t86 != []
  }

  function ElementsOf(p: Pieces): seq<Element> {
    Elements(Encrypted, TAG_87, p.v87) + (Elements(MacOnly, TAG_88, p.v88) + Elements(Encrypted, TAG_86, p.v86))
  }

  /** Completeness, as a grammar: recovery finds a byte string complete, with certain
      elements, if and only if it is one [54] TLV of a request, the three groups, and at most
      a second '87' group in its place, nothing left over, the groups being runs of TLVs with
      those values and the last not empty. */
  lemma CompleteIff(b: Bytes, es: seq<Element>)
    ensures Scan(b) == Scanned(es, true) <==> exists p :: FramedAs(b, p) && es == ElementsOf(p)
  {
    hide Scan, FramedAs;
    if Scan(b) == Scanned(es, true) {
      var p := ScannedIsFramed(b);
    } else {
      forall p | FramedAs(b, p)
        ensures es != ElementsOf(p)
      {
        FramedIsScanned(b, p);
      }
    }
  }

  lemma FramedIsScanned(b: Bytes, p: Pieces)
    requires FramedAs(b, p)
    ensures Scan(b) == Scanned(ElementsOf(p), true)
  {
    hide IsTlv, Group, ScanGroup, AreTlvs, Elements;
    var tail := p.second + p.profile;
    var after := p.metadata + tail;
    var groups := p.first + after;
    assert b + [] == b && p.request + p.first + p.metadata + p.second + p.profile == p.request + groups;
    GroupSplits(b, 54, p.request + groups, []);
    var v :| IsTlv(p.request, 35, v);
    GroupSplits(p.request, 35, v, groups);
    GroupSplits(p.first, 0, Concat(p.t87), after);
    GroupSplits(p.metadata, 1, Concat(p.t88), tail);
    RunIsScanned(p.t87, 7, p.v87, Encrypted, TAG_87);
    RunIsScanned(p.t88, 8, p.v88, MacOnly, TAG_88);
    FramedTail(p);
  }

  lemma FramedTail(p: Pieces)
    requires p.second == [] || IsAnyTlv(p.second, 2)
    requires IsTlv(p.profile, 3, Concat(p.t86)) && AreTlvs(p.t86, 6, p.v86) && p.t86 != []
    ensures ScanTail(p.second + p.profile) == Scanned(Elements(Encrypted, TAG_86, p.v86), true)
  {
    hide IsTlv, Group, ScanGroup;
    assert p.profile + [] == p.profile;
    GroupSplits(p.profile, 3, Concat(p.t86), []);
    if p.second == [] {
      assert p.second + p.profile == p.profile;
    } else {
      var v :| IsTlv(p.second, 2, v);
      GroupSplits(p.second, 2, v, p.profile);
    }
    RunIsScanned(p.t86, 6, p.v86, Encrypted, TAG_86);
  }

  lemma ScannedIsFramed(b: Bytes) returns (p: Pieces)
    requires Scan(b).complete
    ensures FramedAs(b, p) && Scan(b).elements == ElementsOf(p)
  {
    hide IsTlv, Group, ScanGroup, AreTlvs, Elements;
    var outer := GroupFinds(b, 54);
    var content := Group(b, 54).value.0;
    assert b == outer + [] == outer;
    var request := GroupFinds(content, 35);
    var (v, groups) := Group(content, 35).value;
    assert IsAnyTlv(request, 35);
    var first := GroupFinds(groups, 0);
    var (w87, after) := Group(groups, 0).value;
    var t87, v87 := ScannedIsRun(w87, 7, Encrypted, TAG_87);
    var metadata := GroupFinds(after, 1);
    var (w88, tail) := Group(after, 1).value;
    var t88, v88 := ScannedIsRun(w88, 8, MacOnly, TAG_88);
    var second, profile, t86, v86 := ScannedTail(tail);
    p := Pieces(request, first, metadata, second, profile, t87, v87, t88, v88, t86, v86);
    assert content == request + first + metadata + second + profile;
  }

  lemma ScannedTail(tail: Bytes) returns (second: Bytes, profile: Bytes, t86: seq<Bytes>, v86: seq<Bytes>)
    requires ScanTail(tail).complete
    ensures tail == second + profile && (second == [] || IsAnyTlv(second, 2))
    ensures IsTlv(profile, 3, Concat(t86)) && AreTlvs(t86, 6, v86) && t86 != []
    ensures ScanTail(tail).elements == Elements(Encrypted, TAG_86, v86)
  {
    hide IsTlv, Group, ScanGroup;
    second := [];
    var q := tail;
    if Group(tail, 2).Some? {
      second := GroupFinds(tail, 2);
      q := Group(tail, 2).value.1;
      assert IsTlv(second, 2, Group(tail, 2).value.0);
    }
    profile := GroupFinds(q, 3);
    var w := Group(q, 3).value.0;
    assert q == profile + [] == profile;
    t86, v86 := ScannedIsRun(w, 6, Encrypted, TAG_86);
  }

  // ---- what recovery passes over ----

  /** Two packages that differ only in their secure channel requests, and in whether and what
      a second '87' group holds, get the same answer and leave the same session. Their
      wrappers may be in any form the reader takes, and what follows may be anything. */
  lemma IgnoresRequestAndSecondGroup(
    c: Suite, s: State, b: Bytes, b': Bytes, request: Bytes, request': Bytes,
    first: Bytes, metadata: Bytes, second: Bytes, second': Bytes, tail: Bytes)
    requires IsTlv(b, 54, request + first + metadata + second + tail)
    requires IsTlv(b', 54, request' + first + metadata + second' + tail)
    requires IsAnyTlv(request, 35) && IsAnyTlv(request', 35)
    requires IsAnyTlv(first, 0) && IsAnyTlv(metadata, 1)
    requires (second == [] || IsAnyTlv(second, 2)) && (second' == [] || IsAnyTlv(second', 2))
    requires Group(tail, 2).None?
    ensures Recover(c, s, b) == Recover(c, s, b')
  {
    hide Scan, IsTlv;
    ScanSkips(b, request, first, metadata, second, tail);
    ScanSkips(b', request', first, metadata, second', tail);
    ScanSecond(first, metadata, second, tail);
    ScanSecond(first, metadata, second', tail);
  }

  /** The request is passed over whatever the groups behind it are. */
  lemma ScanSkips(b: Bytes, request: Bytes, first: Bytes, metadata: Bytes, second: Bytes, tail: Bytes)
    requires IsTlv(b, 54, request + first + metadata + second + tail) && IsAnyTlv(request, 35)
    ensures Scan(b) == ScanConfigure(first + (metadata + (second + tail)))
  {
    hide IsTlv, Group, ScanConfigure;
    var groups := first + (metadata + (second + tail));
    assert request + first + metadata + second + tail == request + groups && b + [] == b;
    GroupSplits(b, 54, request + groups, []);
    var v :| IsTlv(request, 35, v);
    GroupSplits(request, 35, v, groups);
  }

  lemma ScanSecond(first: Bytes, metadata: Bytes, second: Bytes, tail: Bytes)
    requires IsAnyTlv(first, 0) && IsAnyTlv(metadata, 1) && (second == [] || IsAnyTlv(second, 2))
    requires Group(tail, 2).None?
    ensures ScanConfigure(first + (metadata + (second + tail))) == ScanConfigure(first + (metadata + tail))
  {
    hide IsTlv, Group, ScanGroup;
    var v0, v1 :| IsTlv(first, 0, v0) && IsTlv(metadata, 1, v1);
    GroupSplits(first, 0, v0, metadata + (second + tail));
    GroupSplits(first, 0, v0, metadata + tail);
    GroupSplits(metadata, 1, v1, second + tail);
    GroupSplits(metadata, 1, v1, tail);
    if second == [] {
      assert second + tail == tail;
    } else {
      var v :| IsTlv(second, 2, v);
      GroupSplits(second, 2, v, tail);
    }
  }
}
