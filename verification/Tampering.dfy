/** What a package other than the built one can do. From the builder's starting session a
    receiver accepts a leading part of what was built, or else something MACed that the
    builder never MACed. */
module Tampering {
  import opened Octets
  import opened DerLength
  import opened Tlv
  import opened Cipher
  import opened Channel
  import opened Package
  import opened Recovery
  import opened Binding
  import opened RoundTrip
  import opened Signing

  // ---- the MAC inputs of a list of items ----

  /** What the i-th item's MAC is computed over; for i past the last, nothing. */
  function InputAt(c: Suite, key: Block, chain: Block, items: seq<Item>, i: nat): Bytes
    requires Macable(items) && i < |items|
  {
    MacInput(ChainAfter(c, key, chain, items[..i]), items[i].tag, items[i].data)
  }

  /** x was MACed on the way through these items. */
  ghost predicate Maced(c: Suite, key: Block, chain: Block, items: seq<Item>, x: Bytes)
    requires Macable(items)
  {
    exists i :: 0 <= i < |items| && InputAt(c, key, chain, items, i) == x
  }

  lemma ChainStep(c: Suite, key: Block, chain: Block, items: seq<Item>, i: nat)
    requires Macable(items) && i < |items|
    ensures ChainAfter(c, key, chain, items[..i + 1]) == c.cmac(key, InputAt(c, key, chain, items, i))
  {
    assert items[..i + 1][..i] == items[..i];
  }

  /** Two inputs MACed on the way that collide, or one whose CMAC is the starting value. */
  ghost predicate ChainBroken(c: Suite, key: Block, chain: Block, items: seq<Item>, x: Bytes, y: Bytes)
    requires Macable(items)
  {
    && Maced(c, key, chain, items, x)
    && ((Maced(c, key, chain, items, y) && Collision(c, key, x, y)) || c.cmac(key, x) == chain)
  }

  /** A chaining value comes twice only if the chain is broken. */
  lemma {:induction false} RepeatBreaks(c: Suite, key: Block, chain: Block, items: seq<Item>, i: nat, j: nat)
    returns (x: Bytes, y: Bytes)
    requires Macable(items) && i < j <= |items|
    requires ChainAfter(c, key, chain, items[..i]) == ChainAfter(c, key, chain, items[..j])
    ensures ChainBroken(c, key, chain, items, x, y)
    decreases i
  {
    hide MacInput, InputAt, ChainAfter;
    x := InputAt(c, key, chain, items, j - 1);
    y := x;
    ChainStep(c, key, chain, items, j - 1);
    if i == 0 {
      ChainOfNone(c, key, chain, items);
    } else {
      y := InputAt(c, key, chain, items, i - 1);
      ChainStep(c, key, chain, items, i - 1);
      if x == y {
        SameInputs(c, key, chain, items, i - 1, items, j - 1);
        x, y := RepeatBreaks(c, key, chain, items, i - 1, j - 1);
      }
    }
  }

  lemma ChainOfNone(c: Suite, key: Block, chain: Block, items: seq<Item>)
    requires Macable(items)
    ensures ChainAfter(c, key, chain, items[..0]) == chain
  {
  }

  lemma SameInputs(c: Suite, key: Block, chain: Block, a: seq<Item>, i: nat, b: seq<Item>, j: nat)
    requires Macable(a) && Macable(b) && i < |a| && j < |b|
    requires InputAt(c, key, chain, a, i) == InputAt(c, key, chain, b, j)
    ensures a[i] == b[j]
    ensures ChainAfter(c, key, chain, a[..i]) == ChainAfter(c, key, chain, b[..j])
  {
    hide MacInput, ChainAfter;
    MacInputInjective(
      ChainAfter(c, key, chain, a[..i]), a[i].tag, a[i].data, ChainAfter(c, key, chain, b[..j]), b[j].tag, b[j].data);
  }

  // ---- accepted lists ----

  /** Each element of an accepted list ends in the front of the CMAC of its own input. */
  lemma AcceptedAt(c: Suite, s: State, es: seq<Element>, k: nat)
    requires Replay(c, s, es).verdict.Yes? && AllMaced(es) && k < |es|
    ensures es[k].value == ItemOf(es[k]).data + c.cmac(s.sMac, InputAt(c, s.sMac, s.chain, Items(es), k))[..MAC_LEN]
  {
    hide Unprotect, MacInput, Replay, ChainAfter;
    assert es == es[..k + 1] + es[k + 1..] && es[..k + 1] == es[..k] + [es[k]];
    ReplayAppend(c, s, es[..k + 1], es[k + 1..]);
    ReplaySnoc(c, s, es[..k], es[k]);
    assert AllMaced(es[..k]);
    ReplayChain(c, s, es[..k]);
    AcceptedElement(c, Replay(c, s, es[..k]).next, es[k]);
    assert Items(es[..k]) == Items(es)[..k];
  }

  lemma {:induction false} FirstDifference(a: seq<Element>, b: seq<Element>) returns (k: nat)
    requires !(a <= b)
    ensures k < |a| && k <= |b| && a[..k] == b[..k] && (k < |b| ==> a[k] != b[k])
  {
    k := 0;
    while k < |b| && k < |a| && a[k] == b[k]
      invariant k <= |a| && k <= |b| && a[..k] == b[..k]
    {
      k := k + 1;
    }
  }

  /** At the first element that is not the built one -- in its place or past the last -- the
      receiver accepted a MAC over an input that building never MACed. */
  ghost predicate Forged(c: Suite, s: State, built: seq<Element>, es: seq<Element>, k: nat)
    requires AllMaced(built) && AllMaced(es)
  {
    && k < |es| && k <= |built| && es[..k] == built[..k] && (k < |built| ==> es[k] != built[k])
    && var x := InputAt(c, s.sMac, s.chain, Items(es), k);
       && !Maced(c, s.sMac, s.chain, Items(built), x)
       && es[k].value == ItemOf(es[k]).data + c.cmac(s.sMac, x)[..MAC_LEN]
  }

  lemma AcceptedIsPrefixOrForged(c: Suite, s: State, built: seq<Element>, es: seq<Element>)
    returns (k: nat, x: Bytes, y: Bytes)
    requires AllMaced(built) && AllMaced(es)
    requires Replay(c, s, built).verdict.Yes? && Replay(c, s, es).verdict.Yes?
    requires forall e :: e in built || e in es ==> SuitedMode(e)
    ensures es <= built || Forged(c, s, built, es, k) || ChainBroken(c, s.sMac, s.chain, Items(built), x, y)
  {
    hide Replay, InputAt, ChainAfter, Items, ItemOf;
    k, x, y := 0, [], [];
    if !(es <= built) {
      k := FirstDifference(es, built);
      var p, q := Items(es), Items(built);
      var input := InputAt(c, s.sMac, s.chain, p, k);
      AcceptedAt(c, s, es, k);
      ItemsPrefix(es, built, k);
      if Maced(c, s.sMac, s.chain, q, input) {
        var i :| 0 <= i < |q| && InputAt(c, s.sMac, s.chain, q, i) == input;
        SameInputs(c, s.sMac, s.chain, p, k, q, i);
        if i < k {
          x, y := RepeatBreaks(c, s.sMac, s.chain, q, i, k);
        } else if k < i {
          x, y := RepeatBreaks(c, s.sMac, s.chain, q, k, i);
        } else {
          AcceptedAt(c, s, built, k);
          ItemAt(es, k);
          ItemAt(built, k);
          SameItem(es[k], built[k], c.cmac(s.sMac, input)[..MAC_LEN]);
          assert false;
        }
      }
    }
  }

  lemma ItemsPrefix(a: seq<Element>, b: seq<Element>, k: nat)
    requires AllMaced(a) && AllMaced(b) && k <= |a| && k <= |b| && a[..k] == b[..k]
    ensures Items(a)[..k] == Items(b)[..k]
  {
    assert forall i :: 0 <= i < k ==> a[i] == a[..k][i] && b[i] == b[..k][i];
  }

  lemma ItemAt(es: seq<Element>, k: nat)
    requires AllMaced(es) && k < |es|
    ensures Items(es)[k] == ItemOf(es[k]) && es[k] in es
  {
  }

  lemma SameItem(e: Element, f: Element, tail: Bytes)
    requires MAC_LEN <= |e.value| && MAC_LEN <= |f.value| && SuitedMode(e) && SuitedMode(f)
    requires ItemOf(e) == ItemOf(f)
    requires e.value == ItemOf(e).data + tail && f.value == ItemOf(f).data + tail
    ensures e == f
  {
  }

  // ---- packages ----

  /** Tamper evidence. A package accepted from the session a package was built in carries a
      leading part of the built elements, in order and unchanged, or a MAC over something
      the builder never MACed -- or the builder's own chain is broken. */
  lemma AcceptedIsBuiltOrForged(c: Suite, answer: Option<Signature>, s: State, input: Input, b: Bytes)
    returns (k: nat, x: Bytes, y: Bytes)
    requires Lawful(c)
    requires Build(c, answer, s, input).package.Some? && Recover(c, s, b).answer.Yes?
    ensures var built, es := Scan(Build(c, answer, s, input).package.value).elements, Scan(b).elements;
            && AllMaced(built) && AllMaced(es)
            && (es <= built || Forged(c, s, built, es, k) || ChainBroken(c, s.sMac, s.chain, Items(built), x, y))
  {
    hide Build, Scan, Replay, Profile, Chunks, SuitedMode, Forged, ChainBroken;
    var package := Build(c, answer, s, input).package.value;
    BuiltReplays(c, answer, s, input);
    var built, es := Scan(package).elements, Scan(b).elements;
    AcceptedAreMaced(c, s, built);
    AcceptedAreMaced(c, s, es);
    CompleteHasProfile(package);
    CompleteHasProfile(b);
    k, x, y := AcceptedIsPrefixOrForged(c, s, built, es);
  }

  /** How many elements building from this profile makes: the '87', the '88', and one '86' for
      each 1007 octets or part of them. */
  function ElementCount(n: nat): nat {
    2 + (n + 1006) / 1007
  }

  lemma ReplayPrefix(c: Suite, s: State, es: seq<Element>, k: nat)
    requires Replay(c, s, es).verdict.Yes? && k <= |es|
    ensures Replay(c, s, es[..k]).verdict.Yes? && Replay(c, s, es[..k]).plains == Replay(c, s, es).plains[..k]
  {
    hide Replay;
    assert es == es[..k] + es[k..];
    ReplayAppend(c, s, es[..k], es[k..]);
  }

  lemma LeadingProfile(es: seq<Element>, configure: Bytes, metadata: Bytes, chunks: seq<Bytes>)
    requires |es| == 2 + |chunks| && es[0].tag == TAG_87 && es[1].tag == TAG_88
    requires forall i :: 2 <= i < |es| ==> es[i].tag == TAG_86
    ensures Profile(es, [configure, metadata] + chunks) == Concat(chunks)
  {
    hide Profile;
    assert es == [es[0]] + ([es[1]] + es[2..]) && [configure, metadata] + chunks == [configure] + ([metadata] + chunks);
    ProfileUniform([es[0]], [configure], TAG_87);
    ProfileUniform([es[1]], [metadata], TAG_88);
    ProfileUniform(es[2..], chunks, TAG_86);
    ProfileAppend([es[1]], [metadata], es[2..], chunks);
    ProfileAppend([es[0]], [configure], [es[1]] + es[2..], [metadata] + chunks);
    assert [] + ([] + Concat(chunks)) == Concat(chunks);
  }

  /** A leading part of what was built is always recovered, in whatever package it comes: a
      complete byte string whose elements are the built ones up to some point replays to the
      built plaintexts up to that point, and yields the whole profile if none is missing, else
      the full blocks before the first that is. */
  lemma LeadingElementsAreRecovered(c: Suite, answer: Option<Signature>, s: State, input: Input, b: Bytes)
    requires Lawful(c)
    requires Build(c, answer, s, input).package.Some?
    requires Scan(b).complete && Scan(b).elements <= Scan(Build(c, answer, s, input).package.value).elements
    ensures var es := Scan(b).elements;
            && 3 <= |es| <= ElementCount(|input.upp|)
            && Replay(c, s, es).plains <= [CONFIGURE_ISDP, input.metadata] + Chunks(input.upp)
            && Recover(c, s, b).answer ==
               if |es| == ElementCount(|input.upp|) then Yes(input.upp)
               else Yes(input.upp[..MAX_SEGMENT_PLAINTEXT * (|es| - 2)])
  {
    hide Build, Scan, Replay, Profile, Chunks;
    BuiltReplays(c, answer, s, input);
    BuiltHas(c, answer, s, input);
    var es, built := Scan(b).elements, Scan(Build(c, answer, s, input).package.value).elements;
    AtLeastThree(b, built);
    assert es == built[..|es|];
    LeadingReplay(c, s, built, |es|, input.metadata, Chunks(input.upp));
    LeadingBlocks(input.upp, |es| - 2);
  }

  lemma AtLeastThree(b: Bytes, built: seq<Element>)
    requires Scan(b).complete && Scan(b).elements <= built && |built| >= 2
    requires built[0].tag == TAG_87 && built[1].tag == TAG_88
    ensures |Scan(b).elements| >= 3
  {
    hide Scan;
    CompleteHasProfile(b);
  }

  lemma LeadingReplay(c: Suite, s: State, built: seq<Element>, k: nat, metadata: Bytes, chunks: seq<Bytes>)
    requires Replay(c, s, built).verdict.Yes? && Replay(c, s, built).plains == [CONFIGURE_ISDP, metadata] + chunks
    requires 3 <= k <= |built| && built[0].tag == TAG_87 && built[1].tag == TAG_88
    requires forall i :: 2 <= i < |built| ==> built[i].tag == TAG_86
    ensures k - 2 <= |chunks| && Replay(c, s, built[..k]).verdict.Yes?
    ensures var plains := Replay(c, s, built[..k]).plains;
            && plains == [CONFIGURE_ISDP, metadata] + chunks[..k - 2]
            && plains <= [CONFIGURE_ISDP, metadata] + chunks
            && Profile(built[..k], plains) == Concat(chunks[..k - 2])
  {
    hide Replay, Profile, Concat;
    ReplayPrefix(c, s, built, k);
    TakePlains(CONFIGURE_ISDP, metadata, chunks, k);
    LeadingProfile(built[..k], CONFIGURE_ISDP, metadata, chunks[..k - 2]);
  }

  lemma TakePlains(configure: Bytes, metadata: Bytes, chunks: seq<Bytes>, k: nat)
    requires 2 <= k <= 2 + |chunks|
    ensures ([configure, metadata] + chunks)[..k] == [configure, metadata] + chunks[..k - 2]
  {
  }

  /** The first m blocks put together. */
  lemma LeadingBlocks(upp: Bytes, m: nat)
    requires upp != [] && 1 <= m <= |Chunks(upp)|
    ensures m < |Chunks(upp)| ==> MAX_SEGMENT_PLAINTEXT * m < |upp|
    ensures Concat(Chunks(upp)[..m]) == if m == |Chunks(upp)| then upp else upp[..MAX_SEGMENT_PLAINTEXT * m]
  {
    hide Chunks;
    ChunksFillSegments(upp);
    if m < |Chunks(upp)| {
      ChunksPrefix(upp, m);
    } else {
      assert Chunks(upp)[..m] == Chunks(upp);
    }
  }

  /** The leading part is the case nothing in the channel rules out: a built package carries,
      as its first elements, the whole of the package built for any leading run of full
      blocks, and recovery of that one from the same session succeeds with just those. */
  lemma LeadingPartIsRecovered(c: Suite, answer: Option<Signature>, s: State, input: Input, m: nat)
    requires Lawful(c)
    requires Build(c, answer, s, input).package.Some?
    requires 1 <= m && MAX_SEGMENT_PLAINTEXT * m <= |input.upp|
    ensures var part := input.(upp := input.upp[..MAX_SEGMENT_PLAINTEXT * m]);
            var whole, cut := Build(c, answer, s, input).package.value, Build(c, answer, s, part).package;
            && cut.Some?
            && |Scan(whole).elements| >= 2 + m && Scan(cut.value).elements == Scan(whole).elements[..2 + m]
            && (MAX_SEGMENT_PLAINTEXT * m < |input.upp| ==> |Scan(cut.value).elements| < |Scan(whole).elements|)
            && Recover(c, s, cut.value).answer == Yes(part.upp)
  {
    hide Build, Scan, Recover, Chunks, Jobs, BuiltElements, AllProtectable, Lawful;
    var part := input.(upp := input.upp[..MAX_SEGMENT_PLAINTEXT * m]);
    PartIsBuilt(c, answer, s, input, part);
    BuiltHas(c, answer, s, input);
    BuiltHas(c, answer, s, part);
    BuiltIsRecovered(c, answer, s, part);
    JobsPrefix(input.metadata, input.upp, m);
    var jobs := Jobs(input.metadata, input.upp);
    assert jobs == jobs[..2 + m] + jobs[2 + m..];
    BuiltPrefix(c, s, jobs[..2 + m], jobs[2 + m..]);
  }

  lemma BuiltHas(c: Suite, answer: Option<Signature>, s: State, input: Input)
    requires Lawful(c) && Build(c, answer, s, input).package.Some?
    ensures AllProtectable(Jobs(input.metadata, input.upp))
    ensures Scan(Build(c, answer, s, input).package.value).elements ==
            BuiltElements(c, s, Jobs(input.metadata, input.upp))
    ensures input.upp != []
    ensures |Scan(Build(c, answer, s, input).package.value).elements| ==
            ElementCount(|input.upp|) == 2 + |Chunks(input.upp)|
  {
    hide Build, Scan, Replay, Profile, Jobs, Chunks, BuiltElements, AllProtectable, Lawful;
    BuiltReplays(c, answer, s, input);
    BuildSucceedsIff(c, answer, s, input);
    ChunksFillSegments(input.upp);
  }

  lemma PartIsBuilt(c: Suite, answer: Option<Signature>, s: State, input: Input, part: Input)
    requires Build(c, answer, s, input).package.Some?
    requires part == input.(upp := part.upp) && 1 <= |part.upp| <= |input.upp|
    ensures Build(c, answer, s, part).package.Some?
  {
    hide Build, Buildable;
    BuildSucceedsIff(c, answer, s, input);
    BuildSucceedsIff(c, answer, s, part);
    ShorterIsBuildable(|part.upp|, |input.upp|, |input.metadata|);
  }

  lemma ShorterIsBuildable(k: nat, n: nat, m: nat)
    requires 1 <= k <= n && Buildable(n, m)
    ensures Buildable(k, m)
  {
    hide SegmentSize;
    ProfileSizeGrows(k, n);
    assert TlvSize(ProfileSize(k)) <= TlvSize(ProfileSize(n));
  }

  lemma {:induction false} ProfileSizeGrows(k: nat, n: nat)
    requires 1 <= k <= n
    ensures ProfileSize(k) <= ProfileSize(n)
    decreases n
  {
    hide LengthOctets, SegmentSize, ProfileSize;
    ProfileSizeStep(k);
    ProfileSizeStep(n);
    if k > MAX_SEGMENT_PLAINTEXT {
      ProfileSizeGrows(k - MAX_SEGMENT_PLAINTEXT, n - MAX_SEGMENT_PLAINTEXT);
    } else if n > MAX_SEGMENT_PLAINTEXT {
      SegmentFitsIff(k);
    } else {
      SegmentSizeGrows(k, n);
    }
  }

  lemma SegmentSizeGrows(k: nat, n: nat)
    requires k <= n <= MAX_SEGMENT_PLAINTEXT
    ensures SegmentSize(k) <= SegmentSize(n)
  {
    assert BodySize(Encrypted, k) == (k / 16 + 1) * 16 && BodySize(Encrypted, n) == (n / 16 + 1) * 16;
    assert BodySize(Encrypted, k) <= BodySize(Encrypted, n) <= 1008;
  }

  lemma {:induction false} ChunksPrefix(upp: Bytes, m: nat)
    requires 1 <= m && MAX_SEGMENT_PLAINTEXT * m <= |upp|
    ensures m <= |Chunks(upp)| && Chunks(upp[..MAX_SEGMENT_PLAINTEXT * m]) == Chunks(upp)[..m]
    decreases m
  {
    if m == 1 {
      assert |upp| == MAX_SEGMENT_PLAINTEXT ==> upp[..MAX_SEGMENT_PLAINTEXT] == upp;
    } else {
      var front, rest := upp[..MAX_SEGMENT_PLAINTEXT * m], upp[MAX_SEGMENT_PLAINTEXT..];
      ChunksPrefix(rest, m - 1);
      assert front[..MAX_SEGMENT_PLAINTEXT] == upp[..MAX_SEGMENT_PLAINTEXT];
      assert front[MAX_SEGMENT_PLAINTEXT..] == rest[..MAX_SEGMENT_PLAINTEXT * (m - 1)];
    }
  }

  lemma JobsPrefix(metadata: Bytes, upp: Bytes, m: nat)
    requires 1 <= m && MAX_SEGMENT_PLAINTEXT * m <= |upp|
    ensures |Jobs(metadata, upp)| >= 2 + m
    ensures Jobs(metadata, upp[..MAX_SEGMENT_PLAINTEXT * m]) == Jobs(metadata, upp)[..2 + m]
  {
    hide Chunks;
    ChunksPrefix(upp, m);
  }

  lemma {:induction false} BuiltPrefix(c: Suite, s: State, a: seq<Job>, b: seq<Job>)
    requires AllProtectable(a + b)
    ensures AllProtectable(a)
    ensures |BuiltElements(c, s, a + b)| >= |a| && BuiltElements(c, s, a) == BuiltElements(c, s, a + b)[..|a|]
    decreases |a|
  {
    hide Protect;
    assert forall i :: 0 <= i < |a| ==> (a + b)[i] == a[i];
    if a != [] {
      assert (a + b)[1..] == a[1..] + b;
      BuiltPrefix(c, Protect(c, s, a[0].mode, a[0].tag, a[0].plain).next, a[1..], b);
    }
  }

  /** Acceptance of the whole profile, exactly: a package accepted from the session a package
      was built in yields the built profile if and only if it carries as many elements as the
      built one -- or a MAC was forged, or the builder's chain is broken. */
  lemma WholeProfileIff(c: Suite, answer: Option<Signature>, s: State, input: Input, b: Bytes)
    returns (k: nat, x: Bytes, y: Bytes)
    requires Lawful(c)
    requires Build(c, answer, s, input).package.Some? && Recover(c, s, b).answer.Yes?
    ensures var built, es := Scan(Build(c, answer, s, input).package.value).elements, Scan(b).elements;
            && AllMaced(built) && AllMaced(es)
            && (|| (Recover(c, s, b).answer == Yes(input.upp) <==> |es| == ElementCount(|input.upp|))
                || Forged(c, s, built, es, k)
                || ChainBroken(c, s.sMac, s.chain, Items(built), x, y))
  {
    hide Build, Scan, Replay, Profile, Forged, ChainBroken;
    k, x, y := AcceptedIsBuiltOrForged(c, answer, s, input, b);
    var built, es := Scan(Build(c, answer, s, input).package.value).elements, Scan(b).elements;
    if es <= built {
      LeadingElementsAreRecovered(c, answer, s, input, b);
    }
  }
}
