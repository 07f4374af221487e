/** IPv4 addresses and canonical CIDR blocks (section 3.1 of RFC 4632).

    A block is a base address and a prefix length; its host bits are zero, which is
    what the constructor of the source's `Ipv4Cidr` type enforces. */
module Cidrs {
  const ADDRESS_SPACE: int := 0x1_0000_0000

  type Ipv4 = n: int | 0 <= n < ADDRESS_SPACE

  function Pow2(n: nat): (p: nat)
    ensures p > 0
  {
    if n == 0 then 1 else 2 * Pow2(n - 1)
  }

  datatype Block = Block(base: Ipv4, len: nat)

  predicate Canonical(b: Block) {
    b.len <= 32 && b.base % Pow2(32 - b.len) == 0
  }

  type Cidr = b: Block | Canonical(b) witness Block(0, 32)

  /** The leading `len` bits of an address. */
  function Prefix(ip: Ipv4, len: nat): (p: int)
    requires len <= 32
  {
    ip / Pow2(32 - len)
  }

  /** `Ipv4Cidr::contains`: the address agrees with the base on the network bits. */
  predicate Contains(c: Cidr, ip: Ipv4) {
    Prefix(ip, c.len) == Prefix(c.base, c.len)
  }

  /** Every address of `b` is an address of `a`, decided from base and length. */
  predicate Covers(a: Cidr, b: Cidr) {
    a.len <= b.len && Contains(a, b.base)
  }

  /** `cidr_bounds`: the first and last address of a block. */
  function CidrBounds(c: Cidr): (bounds: (nat, nat))
    ensures bounds.0 <= bounds.1
  {
    var start := c.base;
    var hostBits := if c.len <= 32 then 32 - c.len else 0;
    var size := match hostBits
      case 0 => 1
      case 32 => ADDRESS_SPACE
      case bits => Pow2(bits);
    (start, start + size - 1)
  }

  /** `routes_overlap`: the two address intervals meet. */
  predicate RoutesOverlap(a: Cidr, b: Cidr) {
    var (aStart, aEnd) := CidrBounds(a);
    var (bStart, bEnd) := CidrBounds(b);
    aStart <= bEnd && bStart <= aEnd
  }

  // ── Arithmetic ─────────────────────────────────────────────────────────────

  lemma Pow2Values()
    ensures Pow2(0) == 1 && Pow2(8) == 0x100 && Pow2(16) == 0x1_0000
    ensures Pow2(24) == 0x100_0000 && Pow2(32) == ADDRESS_SPACE
  {
    assert Pow2(4) == 16;
    assert Pow2(8) == 0x100;
    assert Pow2(12) == 0x1000;
    assert Pow2(16) == 0x1_0000;
    assert Pow2(20) == 0x10_0000;
    assert Pow2(24) == 0x100_0000;
    assert Pow2(28) == 0x1000_0000;
  }

  lemma {:induction false} Pow2Adds(a: nat, b: nat)
    ensures Pow2(a + b) == Pow2(a) * Pow2(b)
  {
    if a > 0 {
      Pow2Adds(a - 1, b);
      MulAssociates(2, Pow2(a - 1), Pow2(b));
    }
  }

  lemma {:induction false} Pow2Grows(a: nat, b: nat)
    requires a <= b
    ensures Pow2(a) <= Pow2(b)
  {
    if a < b {
      Pow2Grows(a, b - 1);
    }
  }

  /** Division is the only way to split a number into a multiple and a remainder. */
  lemma DivUnique(x: int, m: int, q: int)
    requires m > 0 && q * m <= x < (q + 1) * m
    ensures x / m == q
  {
    var d := x / m;
    DivFloor(x, m);
    if d < q {
      MulMonotone(d + 1, q, m);
      assert false;
    }
    if d > q {
      MulMonotone(q + 1, d, m);
      assert false;
    }
  }

  lemma DivFloor(x: int, m: int)
    requires m > 0
    ensures (x / m) * m <= x < (x / m + 1) * m
  {
    assert x == (x / m) * m + x % m;
  }

  lemma MulAssociates(a: int, b: int, c: int)
    ensures (a * b) * c == a * (b * c)
  {
  }

  lemma MulMonotone(a: int, b: int, m: int)
    requires a <= b && m >= 0
    ensures a * m <= b * m
  {
  }

  lemma DivDiv(x: nat, a: nat, b: nat)
    requires a > 0 && b > 0
    ensures a * b > 0 && x / (a * b) == (x / a) / b
  {
    var q := x / a;
    var s := q / b;
    DivFloor(x, a);
    DivFloor(q, b);
    assert a * b > 0;
    assert s * (a * b) <= x by {
      assert s * (a * b) == (s * b) * a;
      MulMonotone(s * b, q, a);
    }
    assert x < (s + 1) * (a * b) by {
      assert (s + 1) * (a * b) == ((s + 1) * b) * a;
      assert q + 1 <= (s + 1) * b;
      MulMonotone(q + 1, (s + 1) * b, a);
    }
    DivUnique(x, a * b, s);
  }

  // ── Blocks ─────────────────────────────────────────────────────────────────

  /** A shorter prefix is determined by any longer one. */
  lemma PrefixDetermines(x: Ipv4, y: Ipv4, short: nat, long: nat)
    requires short <= long <= 32
    requires Prefix(x, long) == Prefix(y, long)
    ensures Prefix(x, short) == Prefix(y, short)
  {
    var fine, coarse := Pow2(32 - long), Pow2(long - short);
    Pow2Adds(32 - long, long - short);
    assert Pow2(32 - short) == fine * coarse;
    DivDiv(x, fine, coarse);
    DivDiv(y, fine, coarse);
  }

  /** `cidr_bounds` gives the exact ends of the block for every prefix 0 to 32, and
      the sum it computes stays below 2^32, so in particular below 2^64. */
  lemma BoundsExact(c: Cidr, ip: Ipv4)
    ensures CidrBounds(c).1 < ADDRESS_SPACE
    ensures CidrBounds(c).1 - CidrBounds(c).0 + 1 == Pow2(32 - c.len)
    ensures Contains(c, ip) <==> CidrBounds(c).0 <= ip <= CidrBounds(c).1
  {
    var size, q := Pow2(32 - c.len), Prefix(c.base, c.len);
    BlockFits(c);
    assert CidrBounds(c) == (c.base, c.base + size - 1) by {
      Pow2Values();
    }
    if Contains(c, ip) {
      DivFloor(ip, size);
    }
    if c.base <= ip <= c.base + size - 1 {
      DivUnique(ip, size, q);
    }
  }

  lemma BlockFits(c: Cidr)
    ensures var size, q := Pow2(32 - c.len), Prefix(c.base, c.len);
            c.base == q * size && (q + 1) * size == c.base + size <= ADDRESS_SPACE
  {
    Pow2Adds(32 - c.len, c.len);
    Pow2Values();
    GridFits(c.base, Pow2(32 - c.len), Pow2(c.len));
  }

  lemma GridFits(x: int, m: int, k: int)
    requires m > 0 && x % m == 0 && x < m * k
    ensures x == (x / m) * m
    ensures (x / m + 1) * m == x + m <= m * k
  {
    var q := x / m;
    assert x == q * m;
    assert (q + 1) * m == q * m + m;
    if q >= k {
      MulMonotone(k, q, m);
      assert false;
    }
    MulMonotone(q + 1, k, m);
  }

  lemma BaseIsContained(c: Cidr)
    ensures Contains(c, c.base)
  {
  }

  /** Two blocks that share an address are nested: the shorter prefix covers. */
  lemma SharedAddressNests(a: Cidr, b: Cidr, ip: Ipv4)
    requires Contains(a, ip) && Contains(b, ip) && a.len <= b.len
    ensures Covers(a, b)
  {
    PrefixDetermines(ip, b.base, a.len, b.len);
  }

  /** Canonical blocks of one length are equal or disjoint. This is why ties in the
      router's sort cannot matter. */
  lemma EqualLengthDisjoint(a: Cidr, b: Cidr, ip: Ipv4)
    requires a.len == b.len && Contains(a, ip) && Contains(b, ip)
    ensures a == b
  {
    BlockFits(a);
    BlockFits(b);
  }

  /** `routes_overlap` decides whether some address lies in both blocks, and for
      canonical blocks that happens exactly when one block covers the other. */
  lemma OverlapIsSharedAddress(a: Cidr, b: Cidr)
    ensures RoutesOverlap(a, b) <==> exists ip: Ipv4 :: Contains(a, ip) && Contains(b, ip)
    ensures RoutesOverlap(a, b) <==> Covers(a, b) || Covers(b, a)
  {
    BoundsExact(a, a.base);
    BoundsExact(b, b.base);
    if RoutesOverlap(a, b) {
      var ip: Ipv4 := if a.base >= b.base then a.base else b.base;
      BoundsExact(a, ip);
      BoundsExact(b, ip);
      assert Contains(a, ip) && Contains(b, ip);
    }
    if ip: Ipv4 :| Contains(a, ip) && Contains(b, ip) {
      BoundsExact(a, ip);
      BoundsExact(b, ip);
      if a.len <= b.len {
        SharedAddressNests(a, b, ip);
      } else {
        SharedAddressNests(b, a, ip);
      }
    }
    if Covers(a, b) {
      assert Contains(b, b.base);
    }
    if Covers(b, a) {
      assert Contains(a, a.base);
    }
  }
}
