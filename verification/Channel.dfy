/** The SCP03t secure channel of src/rsp_crypto.c on values: what one segment is, what it
    does to the session, and when it is accepted. */
module Channel {
  import opened Octets
  import opened DerLength
  import opened Cipher

  const MAC_LEN: nat := 8

  /** rsp_session_t. The MAC chaining value and the encryption counter are two separate
      pieces of state. */
  datatype State = State(sEnc: Block, sMac: Block, chain: Block, counter: Block)

  /** Tags '86' and '87' are encrypted and MACed, tag '88' is MACed only (Table 4 in
      section 2.5.4 of GSMA SGP.22 v2.6). */
  datatype Mode = Encrypted | MacOnly

  // ---- the encryption counter ----

  /** A big-endian counter, one further on; the carry runs off the front. */
  function Increment(s: Bytes): (r: Bytes)
    ensures |r| == |s|
  {
    if s == [] then []
    else if s[|s| - 1] < 255 then s[..|s| - 1] + [s[|s| - 1] + 1]
    else Increment(s[..|s| - 1]) + [0]
  }

  lemma {:induction false} IncrementAddsOne(s: Bytes)
    ensures BeNat(Increment(s)) == if BeNat(s) + 1 == Pow256(|s|) then 0 else BeNat(s) + 1
  {
    BeNatBound(s);
    if s != [] {
      var r := Increment(s);
      if s[|s| - 1] < 255 {
        assert r[..|r| - 1] == s[..|s| - 1];
        BeNatBound(s[..|s| - 1]);
      } else {
        IncrementAddsOne(s[..|s| - 1]);
        assert r[..|r| - 1] == Increment(s[..|s| - 1]);
      }
    }
  }

  // ---- one segment ----

  /** What the MAC covers: chaining value, tag, length of data and MAC, data (rule 3,
      section 6.2.4 of GlobalPlatform Amendment D). */
  function MacInput(chain: Block, tag: byte, data: Bytes): Bytes
    requires |data| + MAC_LEN <= MAX_LENGTH
  {
    chain + [tag] + LengthOctets(|data| + MAC_LEN) + data
  }

  function Mac(c: Suite, s: State, tag: byte, data: Bytes): Block
    requires |data| + MAC_LEN <= MAX_LENGTH
  {
    c.cmac(s.sMac, MacInput(s.chain, tag, data))
  }

  /** One accepted segment: the full MAC becomes the chaining value, the counter counts. */
  function Advance(s: State, mac: Block): State {
    s.(chain := mac, counter := Increment(s.counter))
  }

  function Icv(c: Suite, s: State): Block {
    c.enc(s.sEnc, s.counter)
  }

  /** How many octets go on the wire, MAC aside, for n octets of plaintext. */
  function BodySize(mode: Mode, n: nat): nat {
    match mode
    case Encrypted => n + 16 - n % 16
    case MacOnly => n
  }

  /** The octets that go on the wire, MAC aside. */
  function Body(c: Suite, s: State, mode: Mode, plain: Bytes): (r: Bytes)
    ensures |r| == BodySize(mode, |plain|)
  {
    match mode
    case Encrypted => CbcEncrypt(c, s.sEnc, Icv(c, s), Pad(plain))
    case MacOnly => plain
  }

  predicate Protectable(mode: Mode, plain: Bytes) {
    BodySize(mode, |plain|) + MAC_LEN <= MAX_LENGTH
  }

  /** A protected segment's value octets, and the session after it. */
  datatype Protected = Protected(value: Bytes, next: State)

  function Protect(c: Suite, s: State, mode: Mode, tag: byte, plain: Bytes): (r: Protected)
    requires Protectable(mode, plain)
    ensures |r.value| == BodySize(mode, |plain|) + MAC_LEN
  {
    var body := Body(c, s, mode, plain);
    var mac := Mac(c, s, tag, body);
    Protected(body + mac[..MAC_LEN], Advance(s, mac))
  }

  /** A recovered plaintext, and the session after it. */
  datatype Opened = Opened(plain: Bytes, next: State)

  /** A segment length the receiver can even ask its question about. */
  predicate WellSized(mode: Mode, n: nat) {
    && n <= MAX_LENGTH
    && match mode
       case Encrypted => n >= 16 + MAC_LEN && (n - MAC_LEN) % 16 == 0
       case MacOnly => n >= MAC_LEN
  }

  ghost function Unprotect(c: Suite, s: State, mode: Mode, tag: byte, seg: Bytes): (r: Answer<Opened>)
    ensures r.Yes? ==> |r.value.plain| + MAC_LEN <= |seg|
  {
    if !WellSized(mode, |seg|) then Unreached
    else
      var body, tail := seg[..|seg| - MAC_LEN], seg[|seg| - MAC_LEN..];
      var mac := Mac(c, s, tag, body);
      if mac[..MAC_LEN] != tail then No
      else
        match mode
        case MacOnly => Yes(Opened(body, Advance(s, mac)))
        case Encrypted =>
          match Unpad(CbcDecrypt(c, s.sEnc, Icv(c, s), body))
          case Some(p) => Yes(Opened(p, Advance(s, mac)))
          case None => No
  }

  // ---- the two are inverse, and nothing else is accepted ----

  lemma UnprotectUndoesProtect(c: Suite, s: State, mode: Mode, tag: byte, plain: Bytes)
    requires Lawful(c) && Protectable(mode, plain)
    ensures var p := Protect(c, s, mode, tag, plain);
            Unprotect(c, s, mode, tag, p.value) == Yes(Opened(plain, p.next))
  {
    var body := Body(c, s, mode, plain);
    var seg := Protect(c, s, mode, tag, plain).value;
    assert seg[..|seg| - MAC_LEN] == body;
    assert seg[|seg| - MAC_LEN..] == Mac(c, s, tag, body)[..MAC_LEN];
    if mode == Encrypted {
      CbcDecryptsEncrypted(c, s.sEnc, Icv(c, s), Pad(plain));
      UnpadPadded(plain);
    }
  }

  lemma AcceptedIsProtected(c: Suite, s: State, mode: Mode, tag: byte, seg: Bytes)
    requires Lawful(c) && Unprotect(c, s, mode, tag, seg).Yes?
    ensures var o := Unprotect(c, s, mode, tag, seg).value;
            Protectable(mode, o.plain) && Protect(c, s, mode, tag, o.plain) == Protected(seg, o.next)
  {
    var body := seg[..|seg| - MAC_LEN];
    if mode == Encrypted {
      var padded := CbcDecrypt(c, s.sEnc, Icv(c, s), body);
      CbcEncryptsDecrypted(c, s.sEnc, Icv(c, s), body);
      assert padded == Pad(Unprotect(c, s, mode, tag, seg).value.plain);
    }
    assert seg == body + seg[|seg| - MAC_LEN..];
  }

  /** A segment is accepted exactly when it is the protection of the plaintext it yields,
      and both ends then stand in the same state. */
  lemma AcceptsExactlyTheImage(c: Suite, s: State, mode: Mode, tag: byte, seg: Bytes, o: Opened)
    requires Lawful(c)
    ensures Unprotect(c, s, mode, tag, seg) == Yes(o) <==>
            Protectable(mode, o.plain) && Protect(c, s, mode, tag, o.plain) == Protected(seg, o.next)
  {
    if Unprotect(c, s, mode, tag, seg) == Yes(o) {
      AcceptedIsProtected(c, s, mode, tag, seg);
    }
    if Protectable(mode, o.plain) && Protect(c, s, mode, tag, o.plain) == Protected(seg, o.next) {
      UnprotectUndoesProtect(c, s, mode, tag, o.plain);
    }
  }

  /** A refusal with -1 has one of two causes, both about the segment: its MAC differs, or
      its MAC holds and no plaintext pads to what it decrypts to. */
  lemma RefusalMeans(c: Suite, s: State, mode: Mode, tag: byte, seg: Bytes)
    ensures Unprotect(c, s, mode, tag, seg) == No <==>
            && WellSized(mode, |seg|)
            && var body := seg[..|seg| - MAC_LEN];
               || Mac(c, s, tag, body)[..MAC_LEN] != seg[|seg| - MAC_LEN..]
               || (mode == Encrypted && forall p :: CbcDecrypt(c, s.sEnc, Icv(c, s), body) != Pad(p))
  {
  }

  // ---- the MAC input is uniquely decodable ----

  lemma MacInputInjective(chain: Block, tag: byte, data: Bytes, chain': Block, tag': byte, data': Bytes)
    requires |data| + MAC_LEN <= MAX_LENGTH && |data'| + MAC_LEN <= MAX_LENGTH
    requires MacInput(chain, tag, data) == MacInput(chain', tag', data')
    ensures chain == chain' && tag == tag' && data == data'
  {
    hide LengthOctets;
    var m, m' := MacInput(chain, tag, data), MacInput(chain', tag', data');
    assert chain == m[..16] == m'[..16] == chain';
    assert m[16] == tag && m'[16] == tag';
    assert m[17..] == LengthOctets(|data| + MAC_LEN) + data;
    assert m'[17..] == LengthOctets(|data'| + MAC_LEN) + data';
    LengthOctetsInjective(|data| + MAC_LEN, data, |data'| + MAC_LEN, data');
  }

  /** One item under the MAC: the tag it was sent with and the octets after its header. */
  datatype Item = Item(tag: byte, data: Bytes)

  ghost predicate Macable(items: seq<Item>) {
    forall i :: 0 <= i < |items| ==> |items[i].data| + MAC_LEN <= MAX_LENGTH
  }

  /** The chaining value after a list of items. */
  function ChainAfter(c: Suite, key: Block, chain: Block, items: seq<Item>): Block
    requires Macable(items)
  {
    if items == [] then chain
    else
      var last := |items| - 1;
      c.cmac(key, MacInput(ChainAfter(c, key, chain, items[..last]), items[last].tag, items[last].data))
  }

  ghost predicate Collision(c: Suite, key: Block, x: Bytes, y: Bytes) {
    x != y && c.cmac(key, x) == c.cmac(key, y)
  }

  /** The chaining value commits to everything sent so far: two histories of one length
      that end in the same value are the same history, or else a CMAC collision is in
      hand. */
  lemma {:induction false} ChainCommits(c: Suite, key: Block, chain: Block, a: seq<Item>, b: seq<Item>)
    returns (x: Bytes, y: Bytes)
    requires Macable(a) && Macable(b) && |a| == |b|
    requires ChainAfter(c, key, chain, a) == ChainAfter(c, key, chain, b)
    ensures a == b || Collision(c, key, x, y)
    decreases |a|
  {
    hide MacInput;
    x, y := [], [];
    if a != [] {
      var last := |a| - 1;
      var p, q := ChainAfter(c, key, chain, a[..last]), ChainAfter(c, key, chain, b[..last]);
      x := MacInput(p, a[last].tag, a[last].data);
      y := MacInput(q, b[last].tag, b[last].data);
      if x == y {
        MacInputInjective(p, a[last].tag, a[last].data, q, b[last].tag, b[last].data);
        x, y := ChainCommits(c, key, chain, a[..last], b[..last]);
        assert a == a[..last] + [a[last]] && b == b[..last] + [b[last]];
      }
    }
  }
}
