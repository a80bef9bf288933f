/** The address policy of outbound fetches: an allowlist of routable space, the ranges carved out of it, and
    the named refusals in front of both. */
module Addresses {
  import opened Wrappers

  type Bits32 = x: int | 0 <= x < 0x1_0000_0000
  type Bits48 = x: int | 0 <= x < 0x1_0000_0000_0000
  type Bits80 = x: int | 0 <= x < 0x1_0000_0000_0000_0000_0000

  /** An address as a number: an IPv6 one in its first 48 bits and the rest, with the zone it was scoped to if
      any. */
  datatype Addr = Invalid | V4(n: Bits32) | V6(top: Bits48, low: Bits80, zone: string)

  /** A prefix: its address, in the first 48 bits for IPv6, and how many bits of it count. */
  datatype Prefix = P4(base4: Bits32, bits: nat) | P6(base6: Bits48, bits: nat)

  const ROUTABLE: seq<Prefix> := [
    P4(0x0100_0000, 8),             // 1.0.0.0/8
    P4(0x0200_0000, 7),             // 2.0.0.0/7
    P4(0x0400_0000, 6),             // 4.0.0.0/6
    P4(0x0800_0000, 5),             // 8.0.0.0/5
    P4(0x1000_0000, 4),             // 16.0.0.0/4
    P4(0x2000_0000, 3),             // 32.0.0.0/3
    P4(0x4000_0000, 2),             // 64.0.0.0/2
    P4(0x8000_0000, 2),             // 128.0.0.0/2
    P4(0xC000_0000, 3),             // 192.0.0.0/3
    P6(0x2000_0000_0000, 3)]        // 2000::/3

  const CARVED_OUT: seq<Prefix> := [
    P4(0x0A00_0000, 8),             // 10.0.0.0/8
    P4(0xAC10_0000, 12),            // 172.16.0.0/12
    P4(0xC0A8_0000, 16),            // 192.168.0.0/16
    P4(0x6440_0000, 10),            // 100.64.0.0/10
    P4(0x7F00_0000, 8),             // 127.0.0.0/8
    P4(0xA9FE_0000, 16),            // 169.254.0.0/16
    P4(0xC000_0000, 24),            // 192.0.0.0/24
    P4(0xC612_0000, 15),            // 198.18.0.0/15
    P4(0xC000_0200, 24),            // 192.0.2.0/24
    P4(0xC633_6400, 24),            // 198.51.100.0/24
    P4(0xCB00_7100, 24),            // 203.0.113.0/24
    P4(0xC058_6300, 24),            // 192.88.99.0/24
    P4(0xC034_C100, 24),            // 192.52.193.0/24
    P4(0xC01F_C400, 24),            // 192.31.196.0/24
    P4(0xC0AF_3000, 24),            // 192.175.48.0/24
    P4(0xA83F_8110, 32),            // 168.63.129.16/32
    P6(0x2001_0000_0000, 23),       // 2001::/23
    P6(0x2001_0DB8_0000, 32),       // 2001:db8::/32
    P6(0x3FFF_0000_0000, 20),       // 3fff::/20
    P6(0x2002_0000_0000, 16),       // 2002::/16
    P6(0x2620_004F_8000, 48)]       // 2620:4f:8000::/48

  function TwoTo(n: nat): (r: nat)
    ensures r > 0
  {
    if n == 0 then 1 else 2 * TwoTo(n - 1)
  }

  /** A prefix holds the addresses that agree with it in the bits that count; none of the other family and none
      that carries a zone. */
  predicate Contains(p: Prefix, a: Addr) {
    match (p, a)
    case (P4(base, bits), V4(n)) => bits <= 32 && n / TwoTo(32 - bits) == base / TwoTo(32 - bits)
    case (P6(base, bits), V6(top, _, zone)) =>
      zone == "" && bits <= 48 && top / TwoTo(48 - bits) == base / TwoTo(48 - bits)
    case _ => false
  }

  predicate In(ps: seq<Prefix>, a: Addr) { exists i :: 0 <= i < |ps| && Contains(ps[i], a) }

  // ---- what netip says of an address ------------------------------------------------------------------

  predicate Is4In6(a: Addr) { a.V6? && a.top == 0 && a.low / 0x1_0000_0000 == 0xFFFF }

  /** The IPv4 address an IPv4-mapped one stands for; any zone is gone with the mapping. */
  function Unmap(a: Addr): Addr {
    if Is4In6(a) then V4(a.low % 0x1_0000_0000) else a
  }

  predicate IsUnspecified(a: Addr) { a == V4(0) || a == V6(0, 0, "") }

  /** The k-th byte of an IPv4 address, and the first 16 bits of an IPv6 one. */
  function Byte4(n: Bits32, k: nat): int
    requires k < 4
  {
    n / (if k == 0 then 0x100_0000 else if k == 1 then 0x1_0000 else if k == 2 then 0x100 else 1) % 0x100
  }

  function Head6(top: Bits48): int { top / 0x1_0000_0000 }

  predicate IsLoopback(a: Addr) {
    match a case Invalid => false case V4(n) => Byte4(n, 0) == 127 case V6(top, low, _) => top == 0 && low == 1
  }

  predicate IsLinkLocalUnicast(a: Addr) {
    match a
    case Invalid => false
    case V4(n) => Byte4(n, 0) == 169 && Byte4(n, 1) == 254
    case V6(top, _, _) => Head6(top) / 0x40 * 0x40 == 0xFE80
  }

  predicate IsLinkLocalMulticast(a: Addr) {
    match a
    case Invalid => false
    case V4(n) => Byte4(n, 0) == 224 && Byte4(n, 1) == 0 && Byte4(n, 2) == 0
    case V6(top, _, _) => Head6(top) / 0x100 == 0xFF && Head6(top) % 0x10 == 2
  }

  predicate IsInterfaceLocalMulticast(a: Addr) { a.V6? && Head6(a.top) / 0x100 == 0xFF && Head6(a.top) % 0x10 == 1 }

  predicate IsMulticast(a: Addr) {
    match a
    case Invalid => false
    case V4(n) => Byte4(n, 0) / 0x10 * 0x10 == 0xE0
    case V6(top, _, _) => Head6(top) / 0x100 == 0xFF
  }

  predicate IsGlobalUnicast(a: Addr) {
    !a.Invalid? && a != V4(0) && a != V4(0xFFFF_FFFF) && a != V6(0, 0, "")
    && !IsLoopback(a) && !IsMulticast(a) && !IsLinkLocalUnicast(a)
  }

  // ---- the policy ----------------------------------------------------------------------------------------

  datatype Rule =
    | NotAnAddress | Unspecified | Loopback | LinkLocal | Multicast | NotGlobalUnicast
    | OutsideRoutableSpace | CarvedOut(range: Prefix)

  /** The allowlist: in routable space, out of what is carved from it, or refused. */
  method RefuseByList(a: Addr) returns (refusal: Option<Rule>)
    ensures refusal.None? <==> Destination(a)
    ensures refusal == Some(OutsideRoutableSpace) <==> !Unicast(a)
    ensures refusal.Some? && refusal.value.CarvedOut? ==>
              refusal.value.range in CARVED_OUT && Contains(refusal.value.range, a)
    ensures refusal.Some? ==> refusal.value.OutsideRoutableSpace? || refusal.value.CarvedOut?
  {
    RoutableExactly(a);
    CarvedExactly(a);
    hide Contains, ROUTABLE, CARVED_OUT, Unicast, Carved;
    var routable := false;
    for i := 0 to |ROUTABLE|
      invariant !routable && forall k :: 0 <= k < i ==> !Contains(ROUTABLE[k], a)
    {
      if Contains(ROUTABLE[i], a) {
        routable := true;
        break;
      }
    }
    if !routable {
      return Some(OutsideRoutableSpace);
    }
    for i := 0 to |CARVED_OUT|
      invariant forall k :: 0 <= k < i ==> !Contains(CARVED_OUT[k], a)
    {
      if Contains(CARVED_OUT[i], a) {
        return Some(CarvedOut(CARVED_OUT[i]));
      }
    }
    refusal := None;
  }

  /** The named predicates, asked of an address already unmapped. */
  function NamedRefusal(a: Addr): Option<Rule> {
    if a.Invalid? then Some(NotAnAddress)
    else if IsUnspecified(a) then Some(Unspecified)
    else if IsLoopback(a) then Some(Loopback)
    else if IsLinkLocalUnicast(a) then Some(LinkLocal)
    else if IsLinkLocalMulticast(a) || IsInterfaceLocalMulticast(a) || IsMulticast(a) then Some(Multicast)
    else if !IsGlobalUnicast(a) then Some(NotGlobalUnicast)
    else None
  }

  method RefuseAddress(ip: Addr) returns (refusal: Option<Rule>)
    ensures refusal.None? <==> Destination(Unmap(ip))
    ensures NamedRefusal(Unmap(ip)).Some? ==> refusal == NamedRefusal(Unmap(ip))
    ensures NamedRefusal(Unmap(ip)).None? && !Unicast(Unmap(ip)) ==> refusal == Some(OutsideRoutableSpace)
    ensures NamedRefusal(Unmap(ip)).None? && Unicast(Unmap(ip)) && Carved(Unmap(ip)) ==>
              refusal.Some? && refusal.value.CarvedOut? && Contains(refusal.value.range, Unmap(ip))
  {
    NamesOnlyWord(Unmap(ip));
    hide Unicast, Carved, NamedRefusal, Unmap;
    refusal := NamedRefusal(Unmap(ip));
    if refusal.None? {
      refusal := RefuseByList(Unmap(ip));
    }
  }

  // ---- what the lists cover --------------------------------------------------------------------------------

  /** 1.0.0.0 through 223.255.255.255, and 2000::/3 without a zone. */
  predicate Unicast(a: Addr) {
    match a
    case Invalid => false
    case V4(n) => 0x0100_0000 <= n < 0xE000_0000
    case V6(top, _, zone) => zone == "" && 0x2000_0000_0000 <= top < 0x4000_0000_0000
  }

  predicate InCarved4(n: Bits32) {
    || 0x0A00_0000 <= n < 0x0B00_0000
    || 0xAC10_0000 <= n < 0xAC20_0000
    || 0xC0A8_0000 <= n < 0xC0A9_0000
    || 0x6440_0000 <= n < 0x6480_0000
    || 0x7F00_0000 <= n < 0x8000_0000
    || 0xA9FE_0000 <= n < 0xA9FF_0000
    || 0xC000_0000 <= n < 0xC000_0100
    || 0xC612_0000 <= n < 0xC614_0000
    || 0xC000_0200 <= n < 0xC000_0300
    || 0xC633_6400 <= n < 0xC633_6500
    || 0xCB00_7100 <= n < 0xCB00_7200
    || 0xC058_6300 <= n < 0xC058_6400
    || 0xC034_C100 <= n < 0xC034_C200
    || 0xC01F_C400 <= n < 0xC01F_C500
    || 0xC0AF_3000 <= n < 0xC0AF_3100
    || 0xA83F_8110 <= n < 0xA83F_8111
  }

  predicate InCarved6(top: Bits48) {
    || 0x2001_0000_0000 <= top < 0x2001_0200_0000
    || 0x2001_0DB8_0000 <= top < 0x2001_0DB9_0000
    || 0x3FFF_0000_0000 <= top < 0x3FFF_1000_0000
    || 0x2002_0000_0000 <= top < 0x2003_0000_0000
    || 0x2620_004F_8000 <= top < 0x2620_004F_8001
  }

  /** The carved ranges by their bounds. */
  predicate Carved(a: Addr) {
    match a
    case Invalid => false
    case V4(n) => InCarved4(n)
    case V6(top, _, zone) => zone == "" && InCarved6(top)
  }

  /** Where a fetch may go: inside routable space and out of every carved range. */
  predicate Destination(a: Addr) { Unicast(a) && !Carved(a) }

  lemma Powers()
    ensures TwoTo(0) == 1 && TwoTo(8) == 0x100 && TwoTo(16) == 0x1_0000 && TwoTo(17) == 0x2_0000
    ensures TwoTo(20) == 0x10_0000 && TwoTo(22) == 0x40_0000 && TwoTo(24) == 0x100_0000 && TwoTo(25) == 0x200_0000
    ensures TwoTo(26) == 0x400_0000 && TwoTo(27) == 0x800_0000 && TwoTo(28) == 0x1000_0000
    ensures TwoTo(29) == 0x2000_0000 && TwoTo(30) == 0x4000_0000 && TwoTo(32) == 0x1_0000_0000
    ensures TwoTo(45) == 0x2000_0000_0000
  {
    assert TwoTo(4) == 16;
    assert TwoTo(12) == 0x1000;
    assert TwoTo(36) == 0x10_0000_0000;
    assert TwoTo(40) == 0x100_0000_0000;
  }

  lemma SameQuotient(n: nat, base: nat, size: nat)
    requires size > 0 && base % size == 0
    ensures n / size == base / size <==> base <= n < base + size
  {
    var q, r := n / size, base / size;
    assert base == size * r && n == size * q + n % size;
    if q > r {
      assert size * q >= size * (r + 1);
    } else if q < r {
      assert size * (q + 1) <= size * r;
    }
  }

  lemma Span4(p: Prefix, base: Bits32, size: nat, a: Addr)
    requires p.P4? && p.base4 == base && p.bits <= 32 && TwoTo(32 - p.bits) == size && base % size == 0
    ensures Contains(p, a) <==> a.V4? && base <= a.n < base + size
  {
    if a.V4? { SameQuotient(a.n, base, size); }
  }

  lemma Span6(p: Prefix, base: Bits48, size: nat, a: Addr)
    requires p.P6? && p.base6 == base && p.bits <= 48 && TwoTo(48 - p.bits) == size && base % size == 0
    ensures Contains(p, a) <==> a.V6? && a.zone == "" && base <= a.top < base + size
  {
    if a.V6? { SameQuotient(a.top, base, size); }
  }

  lemma TenOf(ps: seq<Prefix>, a: Addr)
    requires |ps| == 10
    ensures In(ps, a) <==>
              Contains(ps[0], a) || Contains(ps[1], a) || Contains(ps[2], a) || Contains(ps[3], a)
              || Contains(ps[4], a) || Contains(ps[5], a) || Contains(ps[6], a) || Contains(ps[7], a)
              || Contains(ps[8], a) || Contains(ps[9], a)
  {
    hide Contains;
  }

  lemma TwentyOneOf(ps: seq<Prefix>, a: Addr)
    requires |ps| == 21
    ensures In(ps, a) <==>
              Contains(ps[0], a) || Contains(ps[1], a) || Contains(ps[2], a) || Contains(ps[3], a)
              || Contains(ps[4], a) || Contains(ps[5], a) || Contains(ps[6], a) || Contains(ps[7], a)
              || Contains(ps[8], a) || Contains(ps[9], a) || Contains(ps[10], a) || Contains(ps[11], a)
              || Contains(ps[12], a) || Contains(ps[13], a) || Contains(ps[14], a) || Contains(ps[15], a)
              || Contains(ps[16], a) || Contains(ps[17], a) || Contains(ps[18], a) || Contains(ps[19], a)
              || Contains(ps[20], a)
  {
    hide Contains;
  }

  lemma RoutableSpans(a: Addr)
    ensures |ROUTABLE| == 10
    ensures Contains(ROUTABLE[0], a) <==> a.V4? && 0x0100_0000 <= a.n < 0x0200_0000
    ensures Contains(ROUTABLE[1], a) <==> a.V4? && 0x0200_0000 <= a.n < 0x0400_0000
    ensures Contains(ROUTABLE[2], a) <==> a.V4? && 0x0400_0000 <= a.n < 0x0800_0000
    ensures Contains(ROUTABLE[3], a) <==> a.V4? && 0x0800_0000 <= a.n < 0x1000_0000
    ensures Contains(ROUTABLE[4], a) <==> a.V4? && 0x1000_0000 <= a.n < 0x2000_0000
    ensures Contains(ROUTABLE[5], a) <==> a.V4? && 0x2000_0000 <= a.n < 0x4000_0000
    ensures Contains(ROUTABLE[6], a) <==> a.V4? && 0x4000_0000 <= a.n < 0x8000_0000
    ensures Contains(ROUTABLE[7], a) <==> a.V4? && 0x8000_0000 <= a.n < 0xC000_0000
    ensures Contains(ROUTABLE[8], a) <==> a.V4? && 0xC000_0000 <= a.n < 0xE000_0000
    ensures Contains(ROUTABLE[9], a) <==> a.V6? && a.zone == "" && 0x2000_0000_0000 <= a.top < 0x4000_0000_0000
  {
    Powers();
    hide Contains, TwoTo, CARVED_OUT;
    Span4(ROUTABLE[0], 0x0100_0000, 16777216, a);
    Span4(ROUTABLE[1], 0x0200_0000, 33554432, a);
    Span4(ROUTABLE[2], 0x0400_0000, 67108864, a);
    Span4(ROUTABLE[3], 0x0800_0000, 134217728, a);
    Span4(ROUTABLE[4], 0x1000_0000, 268435456, a);
    Span4(ROUTABLE[5], 0x2000_0000, 536870912, a);
    Span4(ROUTABLE[6], 0x4000_0000, 1073741824, a);
    Span4(ROUTABLE[7], 0x8000_0000, 1073741824, a);
    Span4(ROUTABLE[8], 0xC000_0000, 536870912, a);
    Span6(ROUTABLE[9], 0x2000_0000_0000, 0x2000_0000_0000, a);
  }

  lemma PrivateSpans(a: Addr)
    ensures |CARVED_OUT| == 21
    ensures Contains(CARVED_OUT[0], a) <==> a.V4? && 0x0A00_0000 <= a.n < 0x0B00_0000
    ensures Contains(CARVED_OUT[1], a) <==> a.V4? && 0xAC10_0000 <= a.n < 0xAC20_0000
    ensures Contains(CARVED_OUT[2], a) <==> a.V4? && 0xC0A8_0000 <= a.n < 0xC0A9_0000
    ensures Contains(CARVED_OUT[3], a) <==> a.V4? && 0x6440_0000 <= a.n < 0x6480_0000
    ensures Contains(CARVED_OUT[4], a) <==> a.V4? && 0x7F00_0000 <= a.n < 0x8000_0000
    ensures Contains(CARVED_OUT[5], a) <==> a.V4? && 0xA9FE_0000 <= a.n < 0xA9FF_0000
    ensures Contains(CARVED_OUT[6], a) <==> a.V4? && 0xC000_0000 <= a.n < 0xC000_0100
    ensures Contains(CARVED_OUT[7], a) <==> a.V4? && 0xC612_0000 <= a.n < 0xC614_0000
  {
    Powers();
    hide Contains, TwoTo, ROUTABLE;
    Span4(CARVED_OUT[0], 0x0A00_0000, 16777216, a);
    Span4(CARVED_OUT[1], 0xAC10_0000, 1048576, a);
    Span4(CARVED_OUT[2], 0xC0A8_0000, 65536, a);
    Span4(CARVED_OUT[3], 0x6440_0000, 4194304, a);
    Span4(CARVED_OUT[4], 0x7F00_0000, 16777216, a);
    Span4(CARVED_OUT[5], 0xA9FE_0000, 65536, a);
    Span4(CARVED_OUT[6], 0xC000_0000, 256, a);
    Span4(CARVED_OUT[7], 0xC612_0000, 131072, a);
  }

  lemma AssignedSpans(a: Addr)
    ensures |CARVED_OUT| == 21
    ensures Contains(CARVED_OUT[8], a) <==> a.V4? && 0xC000_0200 <= a.n < 0xC000_0300
    ensures Contains(CARVED_OUT[9], a) <==> a.V4? && 0xC633_6400 <= a.n < 0xC633_6500
    ensures Contains(CARVED_OUT[10], a) <==> a.V4? && 0xCB00_7100 <= a.n < 0xCB00_7200
    ensures Contains(CARVED_OUT[11], a) <==> a.V4? && 0xC058_6300 <= a.n < 0xC058_6400
    ensures Contains(CARVED_OUT[12], a) <==> a.V4? && 0xC034_C100 <= a.n < 0xC034_C200
    ensures Contains(CARVED_OUT[13], a) <==> a.V4? && 0xC01F_C400 <= a.n < 0xC01F_C500
    ensures Contains(CARVED_OUT[14], a) <==> a.V4? && 0xC0AF_3000 <= a.n < 0xC0AF_3100
    ensures Contains(CARVED_OUT[15], a) <==> a.V4? && 0xA83F_8110 <= a.n < 0xA83F_8111
  {
    Powers();
    hide Contains, TwoTo, ROUTABLE;
    Span4(CARVED_OUT[8], 0xC000_0200, 256, a);
    Span4(CARVED_OUT[9], 0xC633_6400, 256, a);
    Span4(CARVED_OUT[10], 0xCB00_7100, 256, a);
    Span4(CARVED_OUT[11], 0xC058_6300, 256, a);
    Span4(CARVED_OUT[12], 0xC034_C100, 256, a);
    Span4(CARVED_OUT[13], 0xC01F_C400, 256, a);
    Span4(CARVED_OUT[14], 0xC0AF_3000, 256, a);
    Span4(CARVED_OUT[15], 0xA83F_8110, 1, a);
  }

  lemma CarvedSpans6(a: Addr)
    ensures |CARVED_OUT| == 21
    ensures Contains(CARVED_OUT[16], a) <==> a.V6? && a.zone == "" && 0x2001_0000_0000 <= a.top < 0x2001_0200_0000
    ensures Contains(CARVED_OUT[17], a) <==> a.V6? && a.zone == "" && 0x2001_0DB8_0000 <= a.top < 0x2001_0DB9_0000
    ensures Contains(CARVED_OUT[18], a) <==> a.V6? && a.zone == "" && 0x3FFF_0000_0000 <= a.top < 0x3FFF_1000_0000
    ensures Contains(CARVED_OUT[19], a) <==> a.V6? && a.zone == "" && 0x2002_0000_0000 <= a.top < 0x2003_0000_0000
    ensures Contains(CARVED_OUT[20], a) <==> a.V6? && a.zone == "" && 0x2620_004F_8000 <= a.top < 0x2620_004F_8001
  {
    Powers();
    hide Contains, TwoTo, ROUTABLE;
    Span6(CARVED_OUT[16], 0x2001_0000_0000, 0x0000_0200_0000, a);
    Span6(CARVED_OUT[17], 0x2001_0DB8_0000, 0x0000_0001_0000, a);
    Span6(CARVED_OUT[18], 0x3FFF_0000_0000, 0x0000_1000_0000, a);
    Span6(CARVED_OUT[19], 0x2002_0000_0000, 0x0001_0000_0000, a);
    Span6(CARVED_OUT[20], 0x2620_004F_8000, 0x0000_0000_0001, a);
  }

  /** Routable space is exactly 1.0.0.0 through 223.255.255.255 and 2000::/3, and nothing with a zone. */
  lemma RoutableExactly(a: Addr)
    ensures In(ROUTABLE, a) <==> Unicast(a)
  {
    RoutableSpans(a);
    hide In, Contains, ROUTABLE, CARVED_OUT;
    TenOf(ROUTABLE, a);
  }

  /** What is carved out is exactly sixteen IPv4 ranges and five IPv6 ones, and nothing with a zone. */
  lemma CarvedExactly(a: Addr)
    ensures In(CARVED_OUT, a) <==> Carved(a)
  {
    PrivateSpans(a);
    AssignedSpans(a);
    CarvedSpans6(a);
    hide In, Contains, ROUTABLE, CARVED_OUT;
    TwentyOneOf(CARVED_OUT, a);
  }

  /** An IPv4-mapped address, whatever its zone, stands for the IPv4 address in its last 32 bits. */
  lemma MappedIsUnmapped(n: Bits32, zone: string)
    ensures Unmap(V6(0, 0xFFFF_0000_0000 + n, zone)) == V4(n)
  {
  }

  /** And no other address stands for anything but itself. */
  lemma OthersStay(a: Addr)
    ensures Unmap(a) == a <==> !(a.V6? && a.top == 0 && 0xFFFF_0000_0000 <= a.low <= 0xFFFF_FFFF_FFFF)
  {
  }

  /** The named predicates, by the numbers they name. */
  lemma NamedExactly(a: Addr)
    ensures NamedRefusal(a) ==
            match a
            case Invalid => Some(NotAnAddress)
            case V4(n) =>
              if n == 0 then Some(Unspecified)
              else if 0x7F00_0000 <= n < 0x8000_0000 then Some(Loopback)
              else if 0xA9FE_0000 <= n < 0xA9FF_0000 then Some(LinkLocal)
              else if 0xE000_0000 <= n < 0xF000_0000 then Some(Multicast)
              else if n == 0xFFFF_FFFF then Some(NotGlobalUnicast)
              else None
            case V6(top, low, zone) =>
              if top == 0 && low == 0 && zone == "" then Some(Unspecified)
              else if top == 0 && low == 1 then Some(Loopback)
              else if 0xFE80_0000_0000 <= top < 0xFEC0_0000_0000 then Some(LinkLocal)
              else if top >= 0xFF00_0000_0000 then Some(Multicast)
              else None
  {
  }

  /** An address a named predicate refuses is one the lists refuse too: the names choose the wording and
      decide nothing. */
  lemma NamesOnlyWord(a: Addr)
    ensures NamedRefusal(a).Some? ==> !Destination(a)
  {
    NamedExactly(a);
    hide NamedRefusal;
  }

  /** Every carved-out range lies inside routable space, so each entry refuses something. */
  lemma CarvedInside(a: Addr, i: nat)
    requires i < |CARVED_OUT| && Contains(CARVED_OUT[i], a)
    ensures In(ROUTABLE, a)
  {
    RoutableExactly(a);
    assert In(CARVED_OUT, a);
    CarvedExactly(a);
    hide In, Contains, ROUTABLE, CARVED_OUT;
  }
}
