/** What rsp_bpp_recover's three answers mean, for every byte string. */
module Recovery {
  import opened Octets
  import opened DerLength
  import opened Tlv
  import opened Cipher
  import opened Channel
  import opened Package

  /** Protecting these plaintexts in wire order, from s, gives exactly these elements and
      ends in `next`. */
  ghost predicate Protects(c: Suite, s: State, plains: seq<Bytes>, es: seq<Element>, next: State)
    decreases |es|
  {
    && |plains| == |es|
    && if es == [] then next == s
       else
         && Protectable(es[0].mode, plains[0])
         && var p := Protect(c, s, es[0].mode, es[0].tag, plains[0]);
            p.value == es[0].value && Protects(c, p.next, plains[1..], es[1..], next)
  }

  lemma {:induction false} AcceptedAreProtections(c: Suite, s: State, es: seq<Element>)
    requires Lawful(c) && Replay(c, s, es).verdict.Yes?
    ensures Protects(c, s, Replay(c, s, es).plains, es, Replay(c, s, es).next)
    decreases |es|
  {
    hide Unprotect, Protect;
    if es != [] {
      var o := Unprotect(c, s, es[0].mode, es[0].tag, es[0].value).value;
      AcceptedIsProtected(c, s, es[0].mode, es[0].tag, es[0].value);
      AcceptedAreProtections(c, o.next, es[1..]);
    }
  }

  lemma {:induction false} ProtectionsAreAccepted(
    c: Suite, s: State, plains: seq<Bytes>, es: seq<Element>, next: State)
    requires Lawful(c) && Protects(c, s, plains, es, next)
    ensures Replay(c, s, es) == Replayed(plains, next, Yes(()))
    decreases |es|
  {
    hide Unprotect, Protect;
    if es != [] {
      UnprotectUndoesProtect(c, s, es[0].mode, es[0].tag, plains[0]);
      var p := Protect(c, s, es[0].mode, es[0].tag, plains[0]);
      ProtectionsAreAccepted(c, p.next, plains[1..], es[1..], next);
    }
  }

  /** What the sender's list of commands makes is what the receiver's list needs. */
  lemma {:induction false} SealedIsProtected(c: Suite, s: State, jobs: seq<Job>)
    requires AllProtectable(jobs)
    ensures var r := ProtectAll(c, s, jobs);
            Protects(c, s, Plains(jobs), Sent(jobs, r.values), r.next)
    decreases |jobs|
  {
    hide Protect;
    if jobs != [] {
      var p := Protect(c, s, jobs[0].mode, jobs[0].tag, jobs[0].plain);
      SealedIsProtected(c, p.next, jobs[1..]);
    }
  }

  function Plains(jobs: seq<Job>): (r: seq<Bytes>)
    ensures |r| == |jobs|
  {
    if jobs == [] then [] else [jobs[0].plain] + Plains(jobs[1..])
  }

  /** Segment values as the elements a receiver sees. */
  function Sent(jobs: seq<Job>, values: seq<Bytes>): (r: seq<Element>)
    requires |values| == |jobs|
    ensures |r| == |jobs|
  {
    if jobs == [] then []
    else [Element(jobs[0].mode, jobs[0].tag, values[0])] + Sent(jobs[1..], values[1..])
  }

  /** Acceptance, exactly: a byte string is recovered to a profile if and only if it frames
      as a package with at least one '86' element and there are plaintexts whose protection
      in wire order, from the same session, reproduces every element it carries; the profile
      is the '86' plaintexts in order, and the session ends where the protecting one does. */
  lemma RecoversExactlyProtections(c: Suite, s: State, b: Bytes, upp: Bytes, next: State)
    requires Lawful(c)
    ensures Recover(c, s, b) == Recovered(Yes(upp), next) <==>
            && Scan(b).complete
            && exists plains ::
                 Protects(c, s, plains, Scan(b).elements, next) && upp == Profile(Scan(b).elements, plains)
  {
    var es := Scan(b).elements;
    var r := Replay(c, s, es);
    if Recover(c, s, b) == Recovered(Yes(upp), next) {
      AcceptedAreProtections(c, s, es);
      assert Protects(c, s, r.plains, es, next) && upp == Profile(es, r.plains);
    } else {
      forall plains | Scan(b).complete && Protects(c, s, plains, es, next)
        ensures upp != Profile(es, plains)
      {
        ProtectionsAreAccepted(c, s, plains, es, next);
      }
    }
  }

  predicate SuitedMode(e: Element) {
    || (e.tag == TAG_88 && e.mode == MacOnly)
    || ((e.tag == TAG_86 || e.tag == TAG_87) && e.mode == Encrypted)
  }

  /** A complete package has at least one '86' element, and all elements carry the mode
      their tag calls for. */
  lemma CompleteHasProfile(b: Bytes)
    requires Scan(b).complete
    ensures var es := Scan(b).elements;
            && (exists i :: 0 <= i < |es| && es[i].tag == TAG_86)
            && forall i :: 0 <= i < |es| ==> SuitedMode(es[i])
  {
    hide Group, ScanGroup, ReadTlv;
    var (w0, w1, w3) := GroupsOf(b);
    ScanGroupUniform(w0, 7, Encrypted, TAG_87);
    ScanGroupUniform(w1, 8, MacOnly, TAG_88);
    ScanGroupUniform(w3, 6, Encrypted, TAG_86);
    var e0, e1 := ScanGroup(w0, 7, Encrypted, TAG_87).elements, ScanGroup(w1, 8, MacOnly, TAG_88).elements;
    var e3 := ScanGroup(w3, 6, Encrypted, TAG_86).elements;
    var es := Scan(b).elements;
    assert es[|e0| + |e1|] == e3[0];
    forall i | 0 <= i < |es|
      ensures SuitedMode(es[i])
    {
      assert es[i] in e0 || es[i] in e1 || es[i] in e3;
    }
  }

  /** The contents of the three verified groups of a complete package. */
  ghost function GroupsOf(b: Bytes): (r: (Bytes, Bytes, Bytes))
    requires Scan(b).complete
    ensures var e3 := ScanGroup(r.2, 6, Encrypted, TAG_86).elements;
            e3 != [] && Scan(b).elements ==
            ScanGroup(r.0, 7, Encrypted, TAG_87).elements + (ScanGroup(r.1, 8, MacOnly, TAG_88).elements + e3)
  {
    var (content, _) := Group(b, 54).value;
    var (_, groups) := Group(content, 35).value;
    var (w0, rest0) := Group(groups, 0).value;
    var (w1, rest1) := Group(rest0, 1).value;
    var q := match Group(rest1, 2) case Some((_, rest)) => rest case None => rest1;
    (w0, w1, Group(q, 3).value.0)
  }

  lemma {:induction false} ScanGroupUniform(w: Bytes, number: nat, mode: Mode, tag: byte)
    ensures forall e :: e in ScanGroup(w, number, mode, tag).elements ==> e.mode == mode && e.tag == tag
    decreases |w|
  {
    if w != [] && Group(w, number).Some? {
      ScanGroupUniform(Group(w, number).value.1, number, mode, tag);
    }
  }

  // ---- when nothing comes out ----

  /** Every '86' element carried no octets. */
  ghost predicate CarriesNothing(es: seq<Element>, plains: seq<Bytes>)
    requires |plains| == |es|
  {
    forall k :: 0 <= k < |es| && es[k].tag == TAG_86 ==> plains[k] == []
  }

  lemma {:induction false} ProfileEmptyIff(es: seq<Element>, plains: seq<Bytes>)
    requires |plains| == |es|
    ensures Profile(es, plains) == [] <==> CarriesNothing(es, plains)
  {
    if es != [] {
      ProfileEmptyIff(es[1..], plains[1..]);
      assert forall k :: 1 <= k < |es| ==> es[k] == es[1..][k - 1] && plains[k] == plains[1..][k - 1];
      assert CarriesNothing(es, plains) <==>
             (es[0].tag == TAG_86 ==> plains[0] == []) && CarriesNothing(es[1..], plains[1..]);
    }
  }

  /** Success hands out a profile, except exactly here: recovery succeeds with nothing if and
      only if the package is complete and its elements are the protection, from the same
      session, of plaintexts among which every '86' one is empty. */
  lemma RecoversNothingIff(c: Suite, s: State, b: Bytes)
    requires Lawful(c)
    ensures Recover(c, s, b).answer == Yes([]) <==>
            && Scan(b).complete
            && exists plains, next ::
                 Protects(c, s, plains, Scan(b).elements, next) && CarriesNothing(Scan(b).elements, plains)
  {
    hide Scan, Replay, Profile, CarriesNothing;
    var es := Scan(b).elements;
    if Recover(c, s, b).answer == Yes([]) {
      AcceptedAreProtections(c, s, es);
      ProfileEmptyIff(es, Replay(c, s, es).plains);
    } else {
      forall plains, next | Scan(b).complete && Protects(c, s, plains, es, next)
        ensures !CarriesNothing(es, plains)
      {
        ProtectionsAreAccepted(c, s, plains, es, next);
        ProfileEmptyIff(es, plains);
      }
    }
  }

  /** What can be seen before asking: an '86' element of n octets carries n - 24 to n - 9, so
      one of any length but 24 makes an accepted package's profile not empty. */
  lemma LongElementsCarry(c: Suite, s: State, b: Bytes, k: nat)
    requires Lawful(c) && Recover(c, s, b).answer.Yes?
    requires k < |Scan(b).elements| && Scan(b).elements[k].tag == TAG_86
    ensures var value, plains := Scan(b).elements[k].value, Replay(c, s, Scan(b).elements).plains;
            && |value| % 16 == 8
            && |plains| == |Scan(b).elements| && |value| - 24 <= |plains[k]| <= |value| - 9
            && (Recover(c, s, b).answer == Yes([]) ==> |value| == 24)
  {
    hide Scan, Replay, Profile, CarriesNothing, Protects;
    var es := Scan(b).elements;
    AcceptedAreProtections(c, s, es);
    CompleteHasProfile(b);
    ProtectedSize(c, s, Replay(c, s, es).plains, es, Replay(c, s, es).next, k);
    ProfileEmptyIff(es, Replay(c, s, es).plains);
    if Recover(c, s, b).answer == Yes([]) {
      CarriesNothingAt(es, Replay(c, s, es).plains, k);
    }
  }

  lemma CarriesNothingAt(es: seq<Element>, plains: seq<Bytes>, k: nat)
    requires |plains| == |es| && CarriesNothing(es, plains)
    requires k < |es| && es[k].tag == TAG_86
    ensures plains[k] == []
  {
  }

  lemma {:induction false} ProtectedSize(c: Suite, s: State, plains: seq<Bytes>, es: seq<Element>, next: State, k: nat)
    requires Protects(c, s, plains, es, next) && k < |es|
    ensures |plains| == |es| && |es[k].value| == BodySize(es[k].mode, |plains[k]|) + MAC_LEN
    decreases k
  {
    hide BodySize, Body, Mac;
    if k > 0 {
      var p := Protect(c, s, es[0].mode, es[0].tag, plains[0]);
      ProtectedSize(c, p.next, plains[1..], es[1..], next, k - 1);
    }
  }

  // ---- failure ----

  /** Where a replay stops: everything before was verified, and the element there is what
      the verdict is about. */
  lemma {:induction false} ReplayStops(c: Suite, s: State, es: seq<Element>)
    ensures var r := Replay(c, s, es);
            var k := |r.plains|;
            && Replay(c, s, es[..k]) == Replayed(r.plains, r.next, Yes(()))
            && (k < |es| ==>
                  var u := Unprotect(c, r.next, es[k].mode, es[k].tag, es[k].value);
                  !u.Yes? && u.Code() == r.verdict.Code())
    decreases |es|
  {
    hide Unprotect;
    if es != [] {
      var u := Unprotect(c, s, es[0].mode, es[0].tag, es[0].value);
      if u.Yes? {
        ReplayStops(c, u.value.next, es[1..]);
        var k := |Replay(c, s, es).plains|;
        assert es[..k][1..] == es[1..][..k - 1];
      }
    }
  }

  /** Failure, exactly. Whatever the bytes, recovery leaves the session advanced by the
      elements that verified before it stopped, and by no other. It answers -1 if and only
      if the next element was framed, and its own MAC or padding is wrong; every other
      refusal is -2: an element too short or too long to check, or all found elements
      verified and the framing at fault. */
  lemma FailureMeans(c: Suite, s: State, b: Bytes)
    requires Lawful(c)
    ensures var es, r, k := Scan(b).elements, Recover(c, s, b), |Replay(c, s, Scan(b).elements).plains|;
            && k <= |es|
            && Protects(c, s, Replay(c, s, es).plains, es[..k], r.next)
            && (r.answer == No <==>
                  k < |es| && Unprotect(c, r.next, es[k].mode, es[k].tag, es[k].value) == No)
            && (r.answer == Unreached <==>
                  || (k < |es| && Unprotect(c, r.next, es[k].mode, es[k].tag, es[k].value) == Unreached)
                  || (k == |es| && !Scan(b).complete))
  {
    hide Unprotect, Scan;
    var es := Scan(b).elements;
    var r := Replay(c, s, es);
    var k := |r.plains|;
    ReplayStops(c, s, es);
    AcceptedAreProtections(c, s, es[..k]);
  }

  /** An octet missing is always noticed, and before anything is verified: a complete package
      cut anywhere is -2, with the session as it was. */
  lemma TruncationIsNoticed(c: Suite, s: State, b: Bytes, m: nat)
    requires Scan(b).complete && m < |b|
    ensures Recover(c, s, b[..m]) == Recovered(Unreached, s)
  {
    hide ReadTlv, ScanConfigure;
    ReadTlvTruncated(b, m);
  }

  // ---- the chain, over whole packages ----

  ghost predicate AllMaced(es: seq<Element>) {
    forall i :: 0 <= i < |es| ==> MAC_LEN <= |es[i].value| <= MAX_LENGTH
  }

  function ItemOf(e: Element): Item
    requires MAC_LEN <= |e.value|
  {
    Item(e.tag, e.value[..|e.value| - MAC_LEN])
  }

  /** What the MAC covers in each element. */
  function Items(es: seq<Element>): (r: seq<Item>)
    requires AllMaced(es)
    ensures |r| == |es|
    ensures forall i :: 0 <= i < |r| ==> r[i] == ItemOf(es[i])
    ensures Macable(r)
  {
    if es == [] then []
    else Items(es[..|es| - 1]) + [ItemOf(es[|es| - 1])]
  }

  lemma ReplaySnoc(c: Suite, s: State, es: seq<Element>, e: Element)
    requires Replay(c, s, es + [e]).verdict.Yes?
    ensures Replay(c, s, es).verdict.Yes?
    ensures var u := Unprotect(c, Replay(c, s, es).next, e.mode, e.tag, e.value);
            u.Yes? && Replay(c, s, es + [e]).next == u.value.next
  {
    ReplayAppend(c, s, es, [e]);
    assert [e][1..] == [];
  }

  lemma {:induction false} AcceptedAreMaced(c: Suite, s: State, es: seq<Element>)
    requires Replay(c, s, es).verdict.Yes?
    ensures AllMaced(es)
    decreases |es|
  {
    if es != [] {
      var u := Unprotect(c, s, es[0].mode, es[0].tag, es[0].value);
      AcceptedAreMaced(c, u.value.next, es[1..]);
      assert forall i :: 1 <= i < |es| ==> es[i] == es[1..][i - 1];
    }
  }

  /** One accepted element: its MAC input decides the next chaining value and its last
      eight octets. */
  lemma AcceptedElement(c: Suite, s: State, e: Element)
    requires Unprotect(c, s, e.mode, e.tag, e.value).Yes?
    ensures MAC_LEN <= |e.value| <= MAX_LENGTH
    ensures var next, mac := Unprotect(c, s, e.mode, e.tag, e.value).value.next,
                             c.cmac(s.sMac, MacInput(s.chain, ItemOf(e).tag, ItemOf(e).data));
            && next.chain == mac && next.sMac == s.sMac
            && e.value == ItemOf(e).data + mac[..MAC_LEN]
  {
    assert e.value == ItemOf(e).data + e.value[|e.value| - MAC_LEN..];
  }

  lemma ChainAfterSnoc(c: Suite, key: Block, chain: Block, items: seq<Item>, item: Item)
    requires Macable(items) && Macable(items + [item])
    ensures |item.data| + MAC_LEN <= MAX_LENGTH
    ensures ChainAfter(c, key, chain, items + [item]) ==
            c.cmac(key, MacInput(ChainAfter(c, key, chain, items), item.tag, item.data))
  {
    var all := items + [item];
    assert all[|items|] == item && all[..|items|] == items;
  }

  /** An accepted run of elements leaves the chaining value their tags and MACed octets
      give. */
  lemma {:induction false} ReplayChain(c: Suite, s: State, es: seq<Element>)
    requires Replay(c, s, es).verdict.Yes? && AllMaced(es)
    ensures Replay(c, s, es).next.chain == ChainAfter(c, s.sMac, s.chain, Items(es))
    ensures Replay(c, s, es).next.sMac == s.sMac
    decreases |es|
  {
    hide Unprotect, MacInput;
    if es != [] {
      var last := |es| - 1;
      var front, e := es[..last], es[last];
      assert es == front + [e];
      ReplaySnoc(c, s, front, e);
      ReplayChain(c, s, front);
      AcceptedElement(c, Replay(c, s, front).next, e);
      ChainAfterSnoc(c, s.sMac, s.chain, Items(front), ItemOf(e));
    }
  }

  lemma ItemsTail(es: seq<Element>)
    requires AllMaced(es) && es != []
    ensures AllMaced(es[1..]) && Items(es[1..]) == Items(es)[1..]
  {
    var t, i := es[1..], Items(es)[1..];
    assert AllMaced(t);
    assert forall k :: 0 <= k < |t| ==> Items(t)[k] == ItemOf(t[k]) == ItemOf(es[k + 1]) == i[k];
  }

  lemma ReplayHead(c: Suite, s: State, es: seq<Element>)
    requires es != [] && Replay(c, s, es).verdict.Yes?
    ensures var u := Unprotect(c, s, es[0].mode, es[0].tag, es[0].value);
            u.Yes? && Replay(c, u.value.next, es[1..]).verdict.Yes?
  {
  }

  lemma SameItemSameElement(e: Element, f: Element, tail: Bytes)
    requires MAC_LEN <= |e.value| && MAC_LEN <= |f.value|
    requires ItemOf(e) == ItemOf(f) && e.mode == f.mode
    requires e.value == ItemOf(e).data + tail && f.value == ItemOf(f).data + tail
    ensures e == f
  {
  }

  lemma {:induction false} SameItemsSameElements(c: Suite, s: State, a: seq<Element>, b: seq<Element>)
    requires Replay(c, s, a).verdict.Yes? && Replay(c, s, b).verdict.Yes?
    requires |a| == |b|
    requires AllMaced(a) && AllMaced(b)
    requires Items(a) == Items(b)
    requires forall i :: 0 <= i < |a| ==> a[i].mode == b[i].mode
    ensures a == b
    decreases |a|
  {
    hide Unprotect, MacInput, Replay, Items, ItemOf;
    if a != [] {
      ReplayHead(c, s, a);
      ReplayHead(c, s, b);
      assert ItemOf(a[0]) == Items(a)[0] == Items(b)[0] == ItemOf(b[0]);
      AcceptedElement(c, s, a[0]);
      AcceptedElement(c, s, b[0]);
      var mac := c.cmac(s.sMac, MacInput(s.chain, ItemOf(a[0]).tag, ItemOf(a[0]).data));
      SameItemSameElement(a[0], b[0], mac[..MAC_LEN]);
      ItemsTail(a);
      ItemsTail(b);
      SameItemsSameElements(c, Unprotect(c, s, a[0].mode, a[0].tag, a[0].value).value.next, a[1..], b[1..]);
      assert a == [a[0]] + a[1..] && b == [b[0]] + b[1..];
    }
  }

  /** Two packages of equally many elements, both accepted from one session and both
      ending in one chaining value, carry the same elements and yield the same profile --
      or a CMAC collision is in hand. */
  lemma ChainFixesThePackage(c: Suite, s: State, a: Bytes, b: Bytes)
    returns (x: Bytes, y: Bytes)
    requires Recover(c, s, a).answer.Yes? && Recover(c, s, b).answer.Yes?
    requires |Scan(a).elements| == |Scan(b).elements|
    requires Recover(c, s, a).next.chain == Recover(c, s, b).next.chain
    ensures || (Scan(a).elements == Scan(b).elements && Recover(c, s, a) == Recover(c, s, b))
            || Collision(c, s.sMac, x, y)
  {
    hide Unprotect, Scan;
    var p, q := Scan(a).elements, Scan(b).elements;
    AcceptedAreMaced(c, s, p);
    AcceptedAreMaced(c, s, q);
    ReplayChain(c, s, p);
    ReplayChain(c, s, q);
    x, y := ChainCommits(c, s.sMac, s.chain, Items(p), Items(q));
    if Items(p) == Items(q) {
      CompleteHasProfile(a);
      CompleteHasProfile(b);
      SameModes(p, q);
      SameItemsSameElements(c, s, p, q);
    }
  }

  lemma SameModes(p: seq<Element>, q: seq<Element>)
    requires |p| == |q| && AllMaced(p) && AllMaced(q) && Items(p) == Items(q)
    requires forall i :: 0 <= i < |p| ==> SuitedMode(p[i]) && SuitedMode(q[i])
    ensures forall i :: 0 <= i < |p| ==> p[i].mode == q[i].mode
  {
    forall i | 0 <= i < |p|
      ensures p[i].mode == q[i].mode
    {
      assert ItemOf(p[i]) == Items(p)[i] == Items(q)[i] == ItemOf(q[i]);
    }
  }
}
