/** Addresses derived from a destination hash: the tunnel IP of a peer and the alias
    under which a local /24 is exported. Both hash bytes with wrapping machine
    arithmetic; the specification is one exact polynomial, reduced once. */
module Addressing {
  import opened Common
  import opened Cidrs

  type HashOctets = o: seq<Byte> | |o| == 16 witness seq(16, _ => 0)

  /** The 16-byte hash that names a destination. */
  datatype AddressHash = AddressHash(octets: HashOctets)

  const ZERO_HASH: AddressHash := AddressHash([0, 0, 0, 0, 0, 0, 0, 0, 0, 0, 0, 0, 0, 0, 0, 0])

  /** The value of `bytes` as digits in base `mult`, continuing from `seed`. */
  function Horner(seed: nat, bytes: seq<Byte>, mult: nat): nat {
    if |bytes| == 0 then seed
    else
      var n := |bytes| - 1;
      Horner(seed, bytes[..n], mult) * mult + bytes[n]
  }

  /** `wrapping_mul` followed by `wrapping_add`. */
  function WrapMulAdd(seed: nat, mult: nat, add: nat, modulus: nat): (r: nat)
    requires modulus > 0
    ensures r < modulus
  {
    (((seed * mult) % modulus) + add) % modulus
  }

  /** The hashing loop: every multiplication and addition wraps at `modulus`. */
  method WrappingHash(seed: nat, bytes: seq<Byte>, mult: nat, modulus: nat) returns (r: nat)
    requires seed < modulus
    ensures r == Horner(seed, bytes, mult) % modulus
  {
    r := seed;
    SmallMod(seed, modulus);
    for i := 0 to |bytes|
      invariant r == Horner(seed, bytes[..i], mult) % modulus
    {
      HornerStep(seed, bytes, i, mult);
      ghost var exact := Horner(seed, bytes[..i], mult);
      SmallMod(r, modulus);
      WrapOnce(r, exact, mult, bytes[i], modulus);
      r := WrapMulAdd(r, mult, bytes[i], modulus);
    }
    assert bytes[..|bytes|] == bytes;
  }

  lemma HornerStep(seed: nat, bytes: seq<Byte>, i: nat, mult: nat)
    requires i < |bytes|
    ensures Horner(seed, bytes[..i + 1], mult) == Horner(seed, bytes[..i], mult) * mult + bytes[i]
  {
    assert bytes[..i + 1][..i] == bytes[..i];
  }

  lemma SmallMod(x: nat, m: nat)
    requires x < m
    ensures x % m == x
  {
  }

  /** Congruent seeds stay congruent through a wrapping multiply and add. */
  lemma WrapOnce(x: nat, y: nat, mult: nat, add: nat, m: nat)
    requires m > 0 && x % m == y % m
    ensures WrapMulAdd(x, mult, add, m) == (y * mult + add) % m
  {
    CongruentProduct(x, y, mult, m);
    WrapSum(x * mult, y * mult, add, m);
  }

  lemma WrapSum(a: int, b: int, add: int, m: int)
    requires m > 0 && a % m == b % m
    ensures ((a % m) + add) % m == (b + add) % m
  {
    SmallMod(a % m, m);
    CongruentSum(a % m, b, add, m);
  }

  lemma ModShift(x: int, k: int, m: int)
    requires m > 0
    ensures (x + k * m) % m == x % m
  {
    var q := x / m;
    DivFloor(x, m);
    assert (q + k) * m == q * m + k * m;
    assert (q + k + 1) * m == (q + k) * m + m;
    assert (q + 1) * m == q * m + m;
    DivUnique(x + k * m, m, q + k);
    assert x % m == x - q * m;
    assert (x + k * m) % m == x + k * m - (q + k) * m;
  }

  /** Congruent numbers differ by a multiple of the modulus. */
  lemma CongruentGap(x: int, y: int, m: int) returns (k: int)
    requires m > 0 && x % m == y % m
    ensures x == y + k * m
  {
    k := x / m - y / m;
    assert x == m * (x / m) + x % m;
    assert y == m * (y / m) + y % m;
    assert m * (x / m) - m * (y / m) == k * m;
  }

  lemma CongruentSum(x: int, y: int, add: int, m: int)
    requires m > 0 && x % m == y % m
    ensures (x + add) % m == (y + add) % m
  {
    var k := CongruentGap(x, y, m);
    ModShift(y + add, k, m);
  }

  lemma CongruentProduct(x: int, y: int, mult: int, m: int)
    requires m > 0 && x % m == y % m
    ensures (x * mult) % m == (y * mult) % m
  {
    var k := CongruentGap(x, y, m);
    assert x * mult == y * mult + (k * m) * mult;
    assert (k * m) * mult == (k * mult) * m;
    ModShift(y * mult, k * mult, m);
  }

  // ── The polynomial in closed form ──────────────────────────────────────────

  function Power(base: nat, exponent: nat): nat {
    if exponent == 0 then 1 else base * Power(base, exponent - 1)
  }

  /** The sum of `bytes[i] * mult^(n - 1 - i)` over the `n` bytes. */
  function WeightedSum(bytes: seq<Byte>, mult: nat): nat {
    if |bytes| == 0 then 0 else bytes[0] * Power(mult, |bytes| - 1) + WeightedSum(bytes[1..], mult)
  }

  /** Digit by digit or term by term: the same number. */
  lemma {:induction false} HornerIsWeightedSum(seed: nat, bytes: seq<Byte>, mult: nat)
    ensures Horner(seed, bytes, mult) == seed * Power(mult, |bytes|) + WeightedSum(bytes, mult)
    decreases |bytes|
  {
    if |bytes| > 0 {
      var rest := bytes[1..];
      HornerFront(seed, bytes, mult);
      HornerIsWeightedSum(seed * mult + bytes[0], rest, mult);
      SeedTerm(seed, mult, bytes[0], Power(mult, |rest|));
    } else {
      assert Power(mult, 0) == 1;
    }
  }

  lemma SeedTerm(seed: int, mult: int, byte: int, power: int)
    ensures (seed * mult + byte) * power == seed * (mult * power) + byte * power
  {
  }

  lemma {:induction false} HornerFront(seed: nat, bytes: seq<Byte>, mult: nat)
    requires |bytes| > 0
    ensures Horner(seed, bytes, mult) == Horner(seed * mult + bytes[0], bytes[1..], mult)
  {
    var n := |bytes| - 1;
    if n > 0 {
      HornerFront(seed, bytes[..n], mult);
      assert bytes[..n][1..] == bytes[1..][..n - 1];
    }
  }

  // ── Tunnel addresses ───────────────────────────────────────────────────────

  datatype ConfigError = NetworkTooSmall

  /** Host part of a tunnel address: never 0 and never the last host number. */
  function TunnelOffset(network: Cidr, destination: AddressHash): nat
    requires network.len <= 30
  {
    OneOf(UsableHosts(network), TunnelSeed(destination))
  }

  /** All host numbers but 0 and the last one. */
  function UsableHosts(network: Cidr): (n: nat)
    requires network.len <= 30
    ensures n == Pow2(32 - network.len) - 2 && n >= 2
  {
    Pow2Grows(2, 32 - network.len);
    assert Pow2(2) == 4;
    Pow2(32 - network.len) - 2
  }

  function TunnelSeed(destination: AddressHash): nat {
    Horner(0, destination.octets, 131) % U64_MODULUS
  }

  /** A number from 1 to `usable`. */
  function OneOf(usable: nat, seed: nat): nat
    requires usable > 0
  {
    seed % usable + 1
  }

  /** `derive_tunnel_ip` as one expression over unbounded integers: no final wrap. */
  function TunnelIp(network: Cidr, destination: AddressHash): Ipv4
    requires network.len <= 30
  {
    OffsetInside(network, destination);
    network.base + TunnelOffset(network, destination)
  }

  /** The tunnel IP lies strictly between the first and last address of the network. */
  lemma TunnelIpInside(network: Cidr, destination: AddressHash)
    requires network.len <= 30
    ensures var ip := TunnelIp(network, destination);
            Contains(network, ip) && CidrBounds(network).0 < ip < CidrBounds(network).1
  {
    OffsetInside(network, destination);
    BoundsExact(network, TunnelIp(network, destination));
  }

  lemma OffsetInside(network: Cidr, destination: AddressHash)
    requires network.len <= 30
    ensures 0 < TunnelOffset(network, destination) < Pow2(32 - network.len) - 1
    ensures network.base + Pow2(32 - network.len) <= ADDRESS_SPACE
    ensures CidrBounds(network) == (network.base, network.base + Pow2(32 - network.len) - 1)
  {
    Pow2Grows(2, 32 - network.len);
    assert Pow2(2) == 4;
    BlockFits(network);
    BoundsExact(network, network.base);
  }

  /** `derive_tunnel_ip` with the source's machine arithmetic. */
  method DeriveTunnelIp(network: Cidr, destination: AddressHash) returns (r: Result<Ipv4, ConfigError>)
    ensures network.len > 30 ==> r == Err(NetworkTooSmall)
    ensures network.len <= 30 ==> r == Ok(TunnelIp(network, destination))
    ensures network.len <= 30 ==>
              r.Ok? && r.value == network.base + HostNumber(network, WeightedSum(destination.octets, 131))
  {
    if network.len > 30 {
      return Err(NetworkTooSmall);
    }
    TunnelIpExactly(network, destination);
    var offset := DeriveOffset(network, destination);
    r := Ok(AddOffset(network, destination, offset));
  }

  /** The host number, with the source's 64-bit seed. */
  method DeriveOffset(network: Cidr, destination: AddressHash) returns (offset: nat)
    requires network.len <= 30
    ensures offset == TunnelOffset(network, destination)
  {
    var seed := DeriveSeed(destination);
    offset := OneOf(UsableHosts(network), seed);
  }

  method DeriveSeed(destination: AddressHash) returns (seed: nat)
    ensures seed == TunnelSeed(destination)
  {
    seed := WrappingHash(0, destination.octets, 131, U64_MODULUS);
  }

  /** Truncating the offset to 32 bits and the wrapping addition lose nothing. */
  function AddOffset(network: Cidr, destination: AddressHash, offset: nat): (ip: Ipv4)
    requires network.len <= 30 && offset == TunnelOffset(network, destination)
    ensures ip == TunnelIp(network, destination)
  {
    OffsetInside(network, destination);
    SmallMod(offset, U32_MODULUS);
    SmallMod(network.base + offset, U32_MODULUS);
    (network.base + offset % U32_MODULUS) % U32_MODULUS
  }

  /** The host number that goes with the sum of a hash: 1 plus the sum, wrapped at 64 bits,
      modulo the number of usable addresses. */
  function HostNumber(network: Cidr, sum: nat): nat
    requires network.len <= 30
  {
    var usable := UsableHosts(network);
    1 + (sum % 0x1_0000_0000_0000_0000) % usable
  }

  /** The tunnel IP in closed form. */
  lemma TunnelIpExactly(network: Cidr, destination: AddressHash)
    requires network.len <= 30
    ensures TunnelIp(network, destination) == network.base + HostNumber(network, WeightedSum(destination.octets, 131))
  {
    HornerIsWeightedSum(0, destination.octets, 131);
  }

  /** The hash matters: every usable host number up to 256 is that of some hash. */
  lemma EveryHostNumber(network: Cidr, host: nat) returns (destination: AddressHash)
    requires network.len <= 30 && 1 <= host <= 256 && host <= UsableHosts(network)
    ensures TunnelIp(network, destination) == network.base + host
  {
    var zeros := seq<Byte>(15, _ => 0);
    HornerZeros(zeros, 131);
    var last: Byte := host - 1;
    destination := AddressHash(zeros + [last]);
    assert destination.octets[..15] == zeros;
    SmallMod(host - 1, U64_MODULUS);
    SmallMod(host - 1, UsableHosts(network));
  }

  /** Two different 16-byte hashes can share a tunnel IP, in every network. */
  lemma TunnelIpCollides(network: Cidr) returns (a: AddressHash, b: AddressHash)
    requires network.len <= 30
    ensures a != b && |a.octets| == |b.octets| == 16
    ensures TunnelIp(network, a) == TunnelIp(network, b)
  {
    var zeros := seq<Byte>(14, _ => 0);
    HornerZeros(zeros, 131);
    a := AddressHash(zeros + [0, 131]);
    b := AddressHash(zeros + [1, 0]);
    assert a.octets[14] == 0 && b.octets[14] == 1;
    HornerTwo(zeros, 0, 131, 131);
    HornerTwo(zeros, 1, 0, 131);
  }

  lemma {:induction false} HornerZeros(zeros: seq<Byte>, mult: nat)
    requires forall i :: 0 <= i < |zeros| ==> zeros[i] == 0
    ensures Horner(0, zeros, mult) == 0
  {
    if |zeros| > 0 {
      HornerZeros(zeros[..|zeros| - 1], mult);
    }
  }

  lemma HornerTwo(front: seq<Byte>, x: Byte, y: Byte, mult: nat)
    ensures Horner(0, front + [x, y], mult) == (Horner(0, front, mult) * mult + x) * mult + y
  {
    var all := front + [x, y];
    assert all[..|all| - 1] == front + [x];
    assert (front + [x])[..|front|] == front;
  }

  // ── Exported aliases ───────────────────────────────────────────────────────

  function Octets(ip: Ipv4): (o: seq<Byte>)
    ensures |o| == 4
    ensures ip == (o[0] as int) * 0x100_0000 + (o[1] as int) * 0x1_0000 + (o[2] as int) * 0x100 + o[3]
  {
    var top24 := ip / 0x100;
    var top16 := top24 / 0x100;
    [top16 / 0x100, top16 % 0x100, top24 % 0x100, ip % 0x100]
  }

  /** The block 192.168.third.0/24. */
  function AliasBlock(third: Byte): (c: Cidr)
    ensures c.len == 24 && Octets(c.base) == [192, 168, third, 0]
  {
    Pow2Values();
    Block(192 * 0x100_0000 + 168 * 0x1_0000 + third * 0x100, 24)
  }

  function AliasSeed(destination: AddressHash, route: Cidr): nat {
    var mixed := Horner(Horner(0, destination.octets, 167), Octets(route.base), 131);
    (mixed * 31 + route.len) % U32_MODULUS
  }

  function AliasThird(destination: AddressHash, route: Cidr): (third: Byte)
    ensures 100 <= third <= 254
  {
    var third := 100 + AliasSeed(destination, route) % 155;
    if Octets(route.base)[..3] == [192, 168, third] then
      if third == 254 then 100 else third + 1
    else third
  }

  /** `export_local_route` over exact integers, wrapped once. */
  function ExportedRoute(destination: AddressHash, route: Cidr): Cidr {
    if route.len != 24 then route else AliasBlock(AliasThird(destination, route))
  }

  /** The seed of `export_local_route`, in the source's wrapping 32-bit arithmetic. */
  method HashRoute(destination: AddressHash, route: Cidr) returns (seed: nat)
    ensures seed == AliasSeed(destination, route)
  {
    var oct := Octets(route.base);
    seed := WrappingHash(0, destination.octets, 167, U32_MODULUS);
    ghost var exact := Horner(0, destination.octets, 167);
    SmallMod(seed, U32_MODULUS);
    HornerCongruent(seed, exact, oct, 131, U32_MODULUS);
    seed := WrappingHash(seed, oct, 131, U32_MODULUS);
    exact := Horner(exact, oct, 131);
    SmallMod(seed, U32_MODULUS);
    WrapOnce(seed, exact, 31, route.len, U32_MODULUS);
    seed := WrapMulAdd(seed, 31, route.len, U32_MODULUS);
  }

  /** The number of the alias of a route with address octets `o`: given by the sum, and
      one further, in a circle, if the route is the block of that number itself. */
  function AliasNumber(o: seq<Byte>, sum: nat): nat
    requires |o| == 4
  {
    var third := 100 + (sum % 0x1_0000_0000) % 155;
    if o[0] != 192 || o[1] != 168 || o[2] != third then third
    else if third == 254 then 100 else third + 1
  }

  /** The alias in closed form: the sum is over the hash, the network address and the prefix
      length, wrapped once at 32 bits. Only a /24 has an alias of its own. */
  lemma ExportedExactly(destination: AddressHash, route: Cidr)
    ensures route.len != 24 ==> ExportedRoute(destination, route) == route
    ensures route.len == 24 ==>
              var o := Octets(route.base);
              var sum := (WeightedSum(destination.octets, 167) * Power(131, 4) + WeightedSum(o, 131)) * 31 + 24;
              var alias := ExportedRoute(destination, route);
              alias.len == 24 && Octets(alias.base) == [192, 168, AliasNumber(o, sum), 0]
  {
    var o := Octets(route.base);
    HornerIsWeightedSum(0, destination.octets, 167);
    HornerIsWeightedSum(Horner(0, destination.octets, 167), o, 131);
    assert o[..3] == [o[0], o[1], o[2]];
  }

  /** `export_local_route`. */
  method ExportLocalRoute(destination: AddressHash, route: Cidr) returns (exported: Cidr)
    ensures exported == ExportedRoute(destination, route)
  {
    if route.len != 24 {
      return route;
    }
    var oct := Octets(route.base);
    var seed := HashRoute(destination, route);
    var third := 100 + seed % 155;
    assert oct[..3] == [oct[0], oct[1], oct[2]];
    if oct[0] == 192 && oct[1] == 168 && oct[2] == third {
      third := if third == 254 then 100 else third + 1;
    }
    exported := AliasBlock(third);
  }

  lemma {:induction false} HornerCongruent(x: nat, y: nat, bytes: seq<Byte>, mult: nat, m: nat)
    requires m > 0 && x % m == y % m
    ensures Horner(x, bytes, mult) % m == Horner(y, bytes, mult) % m
  {
    if |bytes| > 0 {
      var n := |bytes| - 1;
      HornerCongruent(x, y, bytes[..n], mult, m);
      CongruentProduct(Horner(x, bytes[..n], mult), Horner(y, bytes[..n], mult), mult, m);
      CongruentSum(Horner(x, bytes[..n], mult) * mult, Horner(y, bytes[..n], mult) * mult, bytes[n], m);
    }
  }

  /** The alias of a /24 lies in 192.168.100-254, and shares no address with the
      route it stands for. */
  lemma AliasApart(destination: AddressHash, route: Cidr)
    requires route.len == 24
    ensures exists third: Byte :: 100 <= third <= 254 && ExportedRoute(destination, route) == AliasBlock(third)
    ensures !RoutesOverlap(ExportedRoute(destination, route), route)
  {
    var alias := ExportedRoute(destination, route);
    assert alias == AliasBlock(AliasThird(destination, route));
    assert Octets(alias.base)[..3] != Octets(route.base)[..3] by {
      assert Octets(alias.base)[..3] == [192, 168, AliasThird(destination, route)];
    }
    OverlapIsSharedAddress(alias, route);
    if RoutesOverlap(alias, route) {
      var ip: Ipv4 :| Contains(alias, ip) && Contains(route, ip);
      EqualLengthDisjoint(alias, route, ip);
      assert false;
    }
  }

  /** Aliases are not injective: two LANs of one node can get the same alias. */
  lemma AliasCollides() returns (destination: AddressHash, a: Cidr, b: Cidr)
    ensures |destination.octets| == 16 && a != b && a.len == b.len == 24
    ensures ExportedRoute(destination, a) == ExportedRoute(destination, b)
  {
    Pow2Values();
    destination := ZERO_HASH;
    HornerZeros(destination.octets, 167);
    a := Block(10 * 0x100_0000, 24);
    b := Block(10 * 0x100_0000 + 5 * 0x100, 24);
    AliasThirdOfTen(destination, a, 0);
    AliasThirdOfTen(destination, b, 5);
  }

  lemma AliasThirdOfTen(destination: AddressHash, route: Cidr, r: Byte)
    requires Horner(0, destination.octets, 167) == 0
    requires route.len == 24 && route.base == 10 * 0x100_0000 + r * 0x100
    requires r == 0 || r == 5
    ensures AliasThird(destination, route) == 100 + (22480910 * 31 + 24) % 155
  {
    assert Octets(route.base) == [10, 0, r, 0];
    assert Octets(route.base)[..3][0] == 10;
    HornerFour(10, 0, r, 0);
    var mixed := Horner(0, Octets(route.base), 131);
    assert mixed == 22480910 + r * 131;
    assert AliasSeed(destination, route) == mixed * 31 + 24;
  }

  lemma HornerFour(p: Byte, q: Byte, r: Byte, s: Byte)
    ensures Horner(0, [p, q, r, s], 131) == ((p * 131 + q) * 131 + r) * 131 + s
  {
    HornerTwo([p, q], r, s, 131);
    HornerTwo([], p, q, 131);
    assert [p, q] + [r, s] == [p, q, r, s];
    assert [] + [p, q] == [p, q];
  }
}
