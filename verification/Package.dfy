/** The Bound Profile Package of src/rsp_bpp.c on values: how it is laid out, what a
    reader finds in it, and what recovery answers. */
module Package {
  import opened Octets
  import opened DerLength
  import opened Tlv
  import opened Cipher
  import opened Channel

  /** The most plaintext one segment carries (section 2.5.3 of GSMA SGP.22 v2.6). */
  const MAX_SEGMENT_PLAINTEXT: nat := 1007

  const TAG_86: byte := 0x86
  const TAG_87: byte := 0x87
  const TAG_88: byte := 0x88

  const BPP: Bytes := [0xBF, 0x36]
  const ISC: Bytes := [0xBF, 0x23]
  const FIRST_87: Bytes := [0xA0]
  const SEQUENCE_88: Bytes := [0xA1]
  const SECOND_87: Bytes := [0xA2]
  const SEQUENCE_86: Bytes := [0xA3]

  /** ConfigureISDPRequest with its optional field absent. */
  const CONFIGURE_ISDP: Bytes := [0xBF, 0x24, 0x00]

  lemma WrapperTags()
    ensures WellFormedTag(BPP) && TagOf(BPP) == Tag(CONTEXT, 54)
    ensures WellFormedTag(ISC) && TagOf(ISC) == Tag(CONTEXT, 35)
    ensures WellFormedTag(FIRST_87) && TagOf(FIRST_87) == Tag(CONTEXT, 0)
    ensures WellFormedTag(SEQUENCE_88) && TagOf(SEQUENCE_88) == Tag(CONTEXT, 1)
    ensures WellFormedTag(SECOND_87) && TagOf(SECOND_87) == Tag(CONTEXT, 2)
    ensures WellFormedTag(SEQUENCE_86) && TagOf(SEQUENCE_86) == Tag(CONTEXT, 3)
    ensures WellFormedTag([TAG_87]) && TagOf([TAG_87]) == Tag(CONTEXT, 7)
    ensures WellFormedTag([TAG_88]) && TagOf([TAG_88]) == Tag(CONTEXT, 8)
    ensures WellFormedTag([TAG_86]) && TagOf([TAG_86]) == Tag(CONTEXT, 6)
  {
    assert BPP[1..] == [0x36] && ISC[1..] == [0x23];
  }

  // ---- protecting a list ----

  /** One command to protect. */
  datatype Job = Job(mode: Mode, tag: byte, plain: Bytes)

  ghost predicate AllProtectable(jobs: seq<Job>) {
    forall i :: 0 <= i < |jobs| ==> Protectable(jobs[i].mode, jobs[i].plain)
  }

  /** Segment values in wire order, and the session after the last. */
  datatype Sealed = Sealed(values: seq<Bytes>, next: State)

  function ProtectAll(c: Suite, s: State, jobs: seq<Job>): (r: Sealed)
    requires AllProtectable(jobs)
    ensures |r.values| == |jobs|
    decreases |jobs|
  {
    if jobs == [] then Sealed([], s)
    else
      var p := Protect(c, s, jobs[0].mode, jobs[0].tag, jobs[0].plain);
      var r := ProtectAll(c, p.next, jobs[1..]);
      Sealed([p.value] + r.values, r.next)
  }

  // ---- replaying a list ----

  /** One protected element as received. */
  datatype Element = Element(mode: Mode, tag: byte, value: Bytes)

  /** The plaintexts of the elements that verified before the first that did not, the
      session after them, and what stopped the replay. */
  datatype Replayed = Replayed(plains: seq<Bytes>, next: State, verdict: Answer<()>)

  ghost function Replay(c: Suite, s: State, es: seq<Element>): (r: Replayed)
    ensures |r.plains| <= |es| && (r.verdict.Yes? <==> |r.plains| == |es|)
    decreases |es|
  {
    if es == [] then Replayed([], s, Yes(()))
    else
      match Unprotect(c, s, es[0].mode, es[0].tag, es[0].value)
      case No => Replayed([], s, No)
      case Unreached => Replayed([], s, Unreached)
      case Yes(o) =>
        var r := Replay(c, o.next, es[1..]);
        Replayed([o.plain] + r.plains, r.next, r.verdict)
  }

  lemma {:induction false} ReplayAppend(c: Suite, s: State, a: seq<Element>, b: seq<Element>)
    ensures var r := Replay(c, s, a);
            Replay(c, s, a + b) ==
            if r.verdict.Yes? then
              var q := Replay(c, r.next, b);
              Replayed(r.plains + q.plains, q.next, q.verdict)
            else r
    decreases |a|
  {
    hide Unprotect;
    if a == [] {
      assert a + b == b;
      assert [] + Replay(c, s, b).plains == Replay(c, s, b).plains;
    } else {
      assert (a + b)[1..] == a[1..] + b;
      var u := Unprotect(c, s, a[0].mode, a[0].tag, a[0].value);
      if u.Yes? {
        ReplayAppend(c, u.value.next, a[1..], b);
        var r := Replay(c, u.value.next, a[1..]);
        if r.verdict.Yes? {
          var q := Replay(c, r.next, b);
          assert [u.value.plain] + (r.plains + q.plains) == [u.value.plain] + r.plains + q.plains;
        }
      }
    }
  }

  /** The profile among the plaintexts: those of the '86' elements, in order. */
  function Profile(es: seq<Element>, plains: seq<Bytes>): Bytes
    requires |plains| <= |es|
  {
    if plains == [] then []
    else (if es[0].tag == TAG_86 then plains[0] else []) + Profile(es[1..], plains[1..])
  }

  lemma {:induction false} ProfileAppend(a: seq<Element>, p: seq<Bytes>, b: seq<Element>, q: seq<Bytes>)
    requires |p| == |a| && |q| <= |b|
    ensures Profile(a + b, p + q) == Profile(a, p) + Profile(b, q)
  {
    if a == [] {
      assert a + b == b && p + q == q;
    } else {
      assert (a + b)[1..] == a[1..] + b && (p + q)[1..] == p[1..] + q;
      ProfileAppend(a[1..], p[1..], b, q);
    }
  }

  lemma {:induction false} ProfileUniform(es: seq<Element>, plains: seq<Bytes>, tag: byte)
    requires |plains| <= |es| && forall e :: e in es ==> e.tag == tag
    ensures Profile(es, plains) == if tag == TAG_86 then Concat(plains) else []
  {
    if plains != [] {
      assert es[0] in es;
      ProfileUniform(es[1..], plains[1..], tag);
    }
  }

  // ---- what a reader finds ----

  /** Protected elements in wire order up to the first framing fault, and whether there
      was none. */
  datatype Scanned = Scanned(elements: seq<Element>, complete: bool)

  /** The value of the context-class TLV numbered `number` at the front of p, and what
      follows it. */
  function Group(p: Bytes, number: nat): (r: Option<(Bytes, Bytes)>)
    ensures r.Some? ==> |r.value.0| + |r.value.1| < |p|
  {
    match ReadTlv(p)
    case Some(t) =>
      if t.tag == Tag(CONTEXT, number) then Some((Value(p, t), p[t.Size()..])) else None
    case None => None
  }

  /** The elements of one SEQUENCE OF, each a context-class TLV numbered `number`. */
  function ScanGroup(w: Bytes, number: nat, mode: Mode, tag: byte): (r: Scanned)
    decreases |w|
  {
    if w == [] then Scanned([], true)
    else
      match Group(w, number)
      case None => Scanned([], false)
      case Some((value, rest)) =>
        var r := ScanGroup(rest, number, mode, tag);
        Scanned([Element(mode, tag, value)] + r.elements, r.complete)
  }

  /** sequenceOf86 must not be empty. */
  function ScanProfile(w: Bytes): Scanned {
    var g := ScanGroup(w, 6, Encrypted, TAG_86);
    Scanned(g.elements, g.complete && g.elements != [])
  }

  /** The part of a package after sequenceOf88: an optional second '87' group, passed over,
      then sequenceOf86 filling the rest. */
  function ScanTail(p: Bytes): Scanned {
    var q := match Group(p, 2) case Some((_, rest)) => rest case None => p;
    match Group(q, 3)
    case None => Scanned([], false)
    case Some((w, rest)) => if rest != [] then Scanned([], false) else ScanProfile(w)
  }

  /** sequenceOf88 and what follows it. */
  function ScanMetadata(p: Bytes): Scanned {
    match Group(p, 1)
    case None => Scanned([], false)
    case Some((w, rest)) =>
      var g := ScanGroup(w, 8, MacOnly, TAG_88);
      if !g.complete then g
      else
        var t := ScanTail(rest);
        Scanned(g.elements + t.elements, t.complete)
  }

  /** firstSequenceOf87 and what follows it. */
  function ScanConfigure(p: Bytes): Scanned {
    match Group(p, 0)
    case None => Scanned([], false)
    case Some((w, rest)) =>
      var g := ScanGroup(w, 7, Encrypted, TAG_87);
      if !g.complete then g
      else
        var t := ScanMetadata(rest);
        Scanned(g.elements + t.elements, t.complete)
  }

  /** A whole package: one [54] TLV and nothing after it, the initialiseSecureChannel
      request passed over, then the groups. */
  function Scan(b: Bytes): Scanned {
    match Group(b, 54)
    case None => Scanned([], false)
    case Some((content, rest)) =>
      if rest != [] then Scanned([], false)
      else
        match Group(content, 35)
        case None => Scanned([], false)
        case Some((_, groups)) => ScanConfigure(groups)
  }

  // ---- recovery ----

  datatype Recovered = Recovered(answer: Answer<Bytes>, next: State)

  /** What replaying found elements comes to: a refused element decides, a framing fault
      is -2, and only a complete package whose every element verified yields a profile. */
  ghost function Conclude(sc: Scanned, r: Replayed): Recovered
    requires |r.plains| <= |sc.elements|
  {
    match r.verdict
    case No => Recovered(No, r.next)
    case Unreached => Recovered(Unreached, r.next)
    case Yes(_) =>
      if sc.complete then Recovered(Yes(Profile(sc.elements, r.plains)), r.next)
      else Recovered(Unreached, r.next)
  }

  ghost function Recover(c: Suite, s: State, b: Bytes): Recovered {
    Conclude(Scan(b), Replay(c, s, Scan(b).elements))
  }

  // ---- layout ----

  ghost predicate AllFit(values: seq<Bytes>) {
    forall i :: 0 <= i < |values| ==> |values[i]| <= MAX_LENGTH
  }

  /** The TLVs of one group, each under the one-octet tag `tag`. */
  function Wrapped(tag: byte, values: seq<Bytes>): Bytes
    requires AllFit(values)
  {
    if values == [] then [] else Encode([tag], values[0]) + Wrapped(tag, values[1..])
  }

  /** A package from its parts; `second` stands where a second '87' group may. */
  function Layout(isc: Bytes, g87: Bytes, g88: Bytes, second: Bytes, g86: Bytes): Bytes
    requires |g87| <= MAX_LENGTH && |g88| <= MAX_LENGTH && |g86| <= MAX_LENGTH
  {
    isc + Encode(FIRST_87, g87) + Encode(SEQUENCE_88, g88) + second + Encode(SEQUENCE_86, g86)
  }

  lemma GroupEncoded(tag: Bytes, content: Bytes, rest: Bytes, number: nat)
    requires WellFormedTag(tag) && |content| <= MAX_LENGTH
    ensures Group(Encode(tag, content) + rest, number) ==
            if TagOf(tag) == Tag(CONTEXT, number) then Some((content, rest)) else None
  {
    ReadEncoded(tag, content, rest);
  }

  lemma {:induction false} ScanWrapped(tag: byte, number: nat, mode: Mode, values: seq<Bytes>)
    requires AllFit(values)
    requires WellFormedTag([tag]) && TagOf([tag]) == Tag(CONTEXT, number)
    ensures ScanGroup(Wrapped(tag, values), number, mode, tag) == Scanned(Elements(mode, tag, values), true)
  {
    if values != [] {
      GroupEncoded([tag], values[0], Wrapped(tag, values[1..]), number);
      ScanWrapped(tag, number, mode, values[1..]);
    }
  }

  function Elements(mode: Mode, tag: byte, values: seq<Bytes>): (r: seq<Element>)
    ensures |r| == |values|
    ensures forall i :: 0 <= i < |r| ==> r[i] == Element(mode, tag, values[i])
  {
    if values == [] then [] else [Element(mode, tag, values[0])] + Elements(mode, tag, values[1..])
  }

  /** What a reader finds in a laid-out package depends on the three groups it verifies and
      on nothing else: not on the secure channel request's content, nor on whether or what
      a second '87' group holds. */
  lemma ScanLayout(isc: Bytes, g87: Bytes, g88: Bytes, second: Option<Bytes>, g86: Bytes)
    requires |isc| <= MAX_LENGTH && |g87| <= MAX_LENGTH && |g88| <= MAX_LENGTH && |g86| <= MAX_LENGTH
    requires second.Some? ==> |second.value| <= MAX_LENGTH
    requires |Layout(Encode(ISC, isc), g87, g88, Second(second), g86)| <= MAX_LENGTH
    ensures var b := Encode(BPP, Layout(Encode(ISC, isc), g87, g88, Second(second), g86));
            var f, m, p := ScanGroup(g87, 7, Encrypted, TAG_87), ScanGroup(g88, 8, MacOnly, TAG_88), ScanProfile(g86);
            Scan(b) ==
            if !f.complete then f
            else if !m.complete then Scanned(f.elements + m.elements, false)
            else Scanned(f.elements + (m.elements + p.elements), p.complete)
  {
    hide Group, ScanGroup, ScanTail, ScanProfile, ScanConfigure, Encode, Layout, Second;
    WrapperTags();
    var tail := Second(second) + Encode(SEQUENCE_86, g86);
    var groups := Encode(FIRST_87, g87) + (Encode(SEQUENCE_88, g88) + tail);
    var content := Layout(Encode(ISC, isc), g87, g88, Second(second), g86);
    LayoutIs(Encode(ISC, isc), g87, g88, Second(second), g86);
    assert Encode(BPP, content) + [] == Encode(BPP, content);
    GroupEncoded(BPP, content, [], 54);
    GroupEncoded(ISC, isc, groups, 35);
    ScanConfigureLayout(g87, g88, tail);
    ScanTailLayout(second, g86);
  }

  lemma LayoutIs(isc: Bytes, g87: Bytes, g88: Bytes, second: Bytes, g86: Bytes)
    requires |g87| <= MAX_LENGTH && |g88| <= MAX_LENGTH && |g86| <= MAX_LENGTH
    ensures Layout(isc, g87, g88, second, g86) ==
            isc + (Encode(FIRST_87, g87) + (Encode(SEQUENCE_88, g88) + (second + Encode(SEQUENCE_86, g86))))
  {
    hide Encode;
  }

  lemma ScanConfigureLayout(g87: Bytes, g88: Bytes, tail: Bytes)
    requires |g87| <= MAX_LENGTH && |g88| <= MAX_LENGTH
    ensures var f, m, t := ScanGroup(g87, 7, Encrypted, TAG_87), ScanGroup(g88, 8, MacOnly, TAG_88), ScanTail(tail);
            ScanConfigure(Encode(FIRST_87, g87) + (Encode(SEQUENCE_88, g88) + tail)) ==
            if !f.complete then f
            else if !m.complete then Scanned(f.elements + m.elements, false)
            else Scanned(f.elements + (m.elements + t.elements), t.complete)
  {
    hide Group, ScanGroup, ScanTail, Encode;
    WrapperTags();
    GroupEncoded(FIRST_87, g87, Encode(SEQUENCE_88, g88) + tail, 0);
    GroupEncoded(SEQUENCE_88, g88, tail, 1);
  }

  function Second(second: Option<Bytes>): Bytes
    requires second.Some? ==> |second.value| <= MAX_LENGTH
  {
    match second case Some(x) => Encode(SECOND_87, x) case None => []
  }

  lemma ScanTailLayout(second: Option<Bytes>, g86: Bytes)
    requires |g86| <= MAX_LENGTH && (second.Some? ==> |second.value| <= MAX_LENGTH)
    ensures ScanTail(Second(second) + Encode(SEQUENCE_86, g86)) == ScanProfile(g86)
  {
    hide Group, ScanProfile, Encode;
    WrapperTags();
    var last := Encode(SEQUENCE_86, g86);
    assert last + [] == last;
    GroupEncoded(SEQUENCE_86, g86, [], 3);
    GroupEncoded(SEQUENCE_86, g86, [], 2);
    match second
    case None => assert [] + last == last;
    case Some(x) => GroupEncoded(SECOND_87, x, last, 2);
  }
}
