/** The growable byte buffer of src/rsp_internal.h. */
module GrowBuf {
  import opened Octets

  /** The largest content the doubling rule can serve: half of what a size_t counts. */
  const LIMIT: nat := 0x8000_0000_0000_0000

  const FIRST_CAPACITY: nat := 512

  lemma {:induction false} Pow2Monotone(m: nat, n: nat)
    requires m <= n
    ensures Pow2(m) <= Pow2(n)
  {
    if m < n {
      Pow2Monotone(m, n - 1);
    }
  }

  lemma Pow2Of54()
    ensures FIRST_CAPACITY * Pow2(54) == LIMIT
  {
    assert Pow2(3) == 8;
    assert Pow2(6) == 64;
    assert Pow2(9) == 512;
    assert Pow2(12) == 0x1000;
    assert Pow2(15) == 0x8000;
    assert Pow2(18) == 0x4_0000;
    assert Pow2(21) == 0x20_0000;
    assert Pow2(24) == 0x100_0000;
    assert Pow2(27) == 0x800_0000;
    assert Pow2(30) == 0x4000_0000;
    assert Pow2(33) == 0x2_0000_0000;
    assert Pow2(36) == 0x10_0000_0000;
    assert Pow2(39) == 0x80_0000_0000;
    assert Pow2(42) == 0x400_0000_0000;
    assert Pow2(45) == 0x2000_0000_0000;
    assert Pow2(48) == 0x1_0000_0000_0000;
    assert Pow2(51) == 0x8_0000_0000_0000;
    assert Pow2(54) == 0x40_0000_0000_0000;
  }

  /** 512 times a power of two, up to LIMIT. */
  ghost predicate IsCapacity(c: nat) {
    exists j: nat :: j <= 54 && c == FIRST_CAPACITY * Pow2(j)
  }

  lemma CapacityDoubles(c: nat)
    requires IsCapacity(c)
    ensures FIRST_CAPACITY <= c <= LIMIT
    ensures c < LIMIT ==> IsCapacity(2 * c) && 2 * c <= LIMIT
  {
    var j: nat :| j <= 54 && c == FIRST_CAPACITY * Pow2(j);
    Pow2Of54();
    Pow2Monotone(j, 54);
    if j < 54 {
      assert 2 * c == FIRST_CAPACITY * Pow2(j + 1);
      Pow2Monotone(j + 1, 54);
    }
  }

  /** k rounds of `newcap *= 2` on a 64-bit size_t. */
  function Doubled(c: nat, k: nat): nat {
    if k == 0 then c else Doubled(c, k - 1) * 2 % (SIZE_MAX + 1)
  }

  lemma {:induction false} DoubledStaysCapacity(c: nat, k: nat)
    requires IsCapacity(c)
    ensures Doubled(c, k) == 0 || IsCapacity(Doubled(c, k))
  {
    hide IsCapacity;
    if k > 0 {
      DoubledStaysCapacity(c, k - 1);
      var d := Doubled(c, k - 1);
      if d != 0 {
        CapacityDoubles(d);
        WrapAtLimit(d);
      }
    }
  }

  lemma WrapAtLimit(d: nat)
    requires d <= LIMIT
    ensures d * 2 % (SIZE_MAX + 1) == if d == LIMIT then 0 else 2 * d
  {
    if d == LIMIT {
      assert 2 * d == SIZE_MAX + 1;
    }
  }

  lemma {:induction false} DoublingsToLimit(c: nat) returns (i: nat)
    requires IsCapacity(c)
    ensures Doubled(c, i) == LIMIT
    decreases LIMIT - c
  {
    CapacityDoubles(c);
    if c == LIMIT {
      i := 0;
      assert Doubled(c, 0) == c;
    } else {
      var i' := DoublingsToLimit(2 * c);
      i := i' + 1;
      DoubledShift(c, i');
    }
  }

  lemma {:induction false} DoubledShift(c: nat, k: nat)
    requires 2 * c <= SIZE_MAX
    ensures Doubled(c, k + 1) == Doubled(2 * c, k)
  {
    if k > 0 {
      DoubledShift(c, k - 1);
    } else {
      assert Doubled(c, 0) == c;
    }
  }

  /** The doubling loop ends if and only if the content wanted, itself a size_t that wraps,
      is at most LIMIT octets: past that, the capacity wraps to zero and stays there. */
  lemma DoublingTerminatesIff(c: nat, len: nat, n: nat)
    requires IsCapacity(c)
    ensures var need := (len + n) % (SIZE_MAX + 1);
            (exists k: nat :: Doubled(c, k) >= need) <==> need <= 0x8000_0000_0000_0000
  {
    var need := (len + n) % (SIZE_MAX + 1);
    if need <= LIMIT {
      var i := DoublingsToLimit(c);
      assert Doubled(c, i) >= need;
    } else {
      forall k: nat
        ensures Doubled(c, k) < need
      {
        DoubledStaysCapacity(c, k);
        if Doubled(c, k) != 0 {
          CapacityDoubles(Doubled(c, k));
        }
      }
    }
  }

  /** The doubling loop: the least capacity of the sequence that holds `need`. */
  method NextCapacity(cap: nat, need: nat) returns (newcap: nat)
    requires cap == 0 || IsCapacity(cap)
    requires cap < need <= LIMIT
    ensures IsCapacity(newcap) && need <= newcap
    ensures newcap >= FIRST_CAPACITY && newcap >= 2 * cap
    ensures newcap == FIRST_CAPACITY || newcap < 2 * need
  {
    newcap := if cap != 0 then cap * 2 else FIRST_CAPACITY;
    if cap == 0 {
      assert FIRST_CAPACITY == FIRST_CAPACITY * Pow2(0);
    } else {
      CapacityDoubles(cap);
    }
    while newcap < need
      invariant IsCapacity(newcap)
      invariant newcap >= FIRST_CAPACITY && newcap >= 2 * cap
      invariant newcap == FIRST_CAPACITY || newcap < 2 * need
      decreases LIMIT - newcap
    {
      CapacityDoubles(newcap);
      assert 2 * newcap <= SIZE_MAX;
      newcap := newcap * 2 % (SIZE_MAX + 1);
    }
  }

  class GrowBuf {
    var buf: array?<byte>
    var len: nat
    var cap: nat
    /** How many octets reallocation may have moved so far: the old capacity, each time. */
    ghost var moved: nat

    ghost predicate Valid()
      reads this, buf
    {
      && (buf == null <==> cap == 0)
      && (buf != null ==> buf.Length == cap && IsCapacity(cap))
      && len <= cap
      && (cap <= FIRST_CAPACITY || cap < 2 * len)
      && (if cap == 0 then moved == 0 else moved + FIRST_CAPACITY <= cap)
    }

    ghost function Contents(): Bytes
      reads this, buf
      requires Valid()
    {
      if buf == null then [] else buf[..len]
    }

    /** `memset(&g, 0, sizeof g)`. */
    constructor ()
      ensures Valid() && Contents() == [] && buf == null && len == 0 && moved == 0
    {
      buf, len, cap, moved := null, 0, 0, 0;
    }

    /** rsp_growbuf_append. The capacity follows the doubling rule: untouched while the
        content fits, else the least of the doublings that holds it. However many appends
        have gone before, reallocation has moved at most twice the octets held. */
    method Append(data: Bytes)
      requires Valid()
      requires len + |data| <= LIMIT
      modifies this, buf
      ensures Valid()
      ensures buf == old(buf) || fresh(buf)
      ensures Contents() == old(Contents()) + data
      ensures len == old(len) + |data|
      ensures len <= old(cap) ==> cap == old(cap) && moved == old(moved) && buf == old(buf)
      ensures len > old(cap) ==> cap == 512 || (2 * old(cap) <= cap < 2 * len)
      ensures len > old(cap) ==> moved == old(moved) + old(cap)
      ensures moved <= 2 * len
    {
      hide IsCapacity;
      if len + |data| > cap {
        var newcap := NextCapacity(cap, len + |data|);
        Reallocate(newcap);
      }
      Store(data);
    }

    /** The copy into a buffer with room, and the new length. */
    method Store(data: Bytes)
      requires (buf == null <==> cap == 0) && (buf != null ==> buf.Length == cap) && len + |data| <= cap
      modifies this`len, buf
      ensures len == old(len) + |data|
      ensures buf != null ==> buf[..len] == old(buf[..len]) + data
    {
      if |data| > 0 {
        CopyInto(data, buf, len);
        assert buf[..len + |data|] == buf[..len] + data;
      }
      len := len + |data|;
    }

    /** `realloc`: a fresh block with the old content at its front. */
    method Reallocate(newcap: nat)
      requires Valid()
      requires IsCapacity(newcap) && newcap >= 2 * cap && newcap >= FIRST_CAPACITY
      modifies this
      ensures buf != null && fresh(buf) && buf.Length == cap == newcap
      ensures len == old(len) <= cap && buf[..len] == old(Contents())
      ensures moved == old(moved) + old(cap) && moved + FIRST_CAPACITY <= cap
    {
      var p := new byte[newcap](_ => 0);
      if buf != null {
        CopyInto(buf[..len], p, 0);
      }
      moved := moved + cap;
      buf := p;
      cap := newcap;
    }

    /** rsp_growbuf_free, without the wiping. */
    method Free()
      requires Valid()
      modifies this
      ensures Valid() && Contents() == [] && buf == null
    {
      buf, len, cap, moved := null, 0, 0, 0;
    }
  }
}
